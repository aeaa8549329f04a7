/**
 * Keeping the outer FIT image's stored digests in step with a patched tree:
 * for each modified tree, the first image whose stored crc32 and sha1 equal
 * the tree's digests before patching gets the digests after patching written
 * over those 4 + 20 bytes, in place.
 */
module FitSync {
  import opened Wrappers
  import opened Bytes
  import opened FdtHeader
  import opened FdtScan
  import opened FdtWalk
  import opened FitHashes

  const CRC_LEN: nat := 4
  const SHA1_LEN: nat := 20

  /** A crc32 as stored in a FIT image: 4 big-endian bytes. */
  type CrcValue = s: seq<byte> | |s| == CRC_LEN witness [0, 0, 0, 0]

  /** A SHA-1 digest: 20 bytes. */
  type Sha1Value = s: seq<byte> | |s| == SHA1_LEN witness seq(20, _ => 0)

  /**
   * The two digest functions, which this model does not define: CRC-32
   * (`binascii.crc32`) and SHA-1 (`hashlib.sha1(...).digest()`).
   */
  datatype Digester = Digester(crc32: seq<byte> -> nat, sha1: seq<byte> -> Sha1Value)

  /** `struct.pack(">I", compute_crc32(s))`, where `compute_crc32` masks to 32 bits. */
  function CrcBytes(d: Digester, s: seq<byte>): CrcValue
  {
    Pack32(d.crc32(s) % TWO32)
  }

  /** One modified tree's digests: crc32 as 4 big-endian bytes and sha1, before and after patching. */
  datatype DigestRecord = DigestRecord(oldCrc: CrcValue, newCrc: CrcValue, oldSha1: Sha1Value, newSha1: Sha1Value)

  /** An image whose stored crc32 and sha1 values read, right now, as the record's old digests. */
  predicate EntryMatches(buf: seq<byte>, e: ImageEntry, rec: DigestRecord)
  {
    e.crc32.Some? && e.sha1.Some?
    && ReadPropBytes(buf, e.crc32.value) == rec.oldCrc
    && ReadPropBytes(buf, e.sha1.value) == rec.oldSha1
  }

  /** The first image from index `k` on that matches the record. */
  function FirstMatchFrom(buf: seq<byte>, m: ImageMap, rec: DigestRecord, k: nat): (r: Option<nat>)
    requires k <= |m|
    ensures r.Some? ==> (k <= r.value < |m| && EntryMatches(buf, m[r.value], rec)
      && forall j :: k <= j < r.value ==> !EntryMatches(buf, m[j], rec))
    ensures r.None? ==> forall j :: k <= j < |m| ==> !EntryMatches(buf, m[j], rec)
    decreases |m| - k
  {
    if k == |m| then None
    else if EntryMatches(buf, m[k], rec) then Some(k)
    else FirstMatchFrom(buf, m, rec, k + 1)
  }

  function FirstMatch(buf: seq<byte>, m: ImageMap, rec: DigestRecord): Option<nat>
  {
    FirstMatchFrom(buf, m, rec, 0)
  }

  /** The inner loop over `image_hash_map.items()`: the first image that matches, if any. */
  method FindMatchingImage(buf: seq<byte>, m: ImageMap, rec: DigestRecord) returns (r: Option<nat>)
    ensures r == FirstMatch(buf, m, rec)
  {
    for k := 0 to |m|
      invariant FirstMatchFrom(buf, m, rec, k) == FirstMatch(buf, m, rec)
    {
      var e := m[k];
      if e.crc32.None? || e.sha1.None? {
        continue;
      }
      var currentCrc := ReadPropBytes(buf, e.crc32.value);
      var currentSha1 := ReadPropBytes(buf, e.sha1.value);
      if currentCrc == rec.oldCrc && currentSha1 == rec.oldSha1 {
        return Some(k);
      }
    }
    return None;
  }

  /** A value read as exactly `n` bytes lies wholly inside the buffer. */
  lemma ReadInside(buf: seq<byte>, p: PropertyRef, n: nat)
    requires n > 0 && |ReadPropBytes(buf, p)| == n
    ensures p.valueOffset + n <= |buf|
  {
  }

  /** The buffer after one record: unchanged without a match, else both digests overwritten, crc32 first. */
  function ApplyRecord(buf: seq<byte>, m: ImageMap, rec: DigestRecord): (r: seq<byte>)
    ensures |r| == |buf|
  {
    match FirstMatch(buf, m, rec)
    case None => buf
    case Some(i) =>
      var crc, sha := m[i].crc32.value, m[i].sha1.value;
      ReadInside(buf, crc, CRC_LEN);
      ReadInside(buf, sha, SHA1_LEN);
      Splice(Splice(buf, crc.valueOffset, rec.newCrc), sha.valueOffset, rec.newSha1)
  }

  /** The buffer after all records, and how many images were updated. */
  function SyncAll(buf: seq<byte>, m: ImageMap, recs: seq<DigestRecord>): (r: (seq<byte>, nat))
    ensures |r.0| == |buf| && r.1 <= |recs|
    decreases |recs|
  {
    if recs == [] then (buf, 0)
    else
      var rest := SyncAll(ApplyRecord(buf, m, recs[0]), m, recs[1..]);
      (rest.0, rest.1 + if FirstMatch(buf, m, recs[0]).Some? then 1 else 0)
  }

  /** One unfolding of `SyncAll` at record `i`. */
  lemma SyncAllUnfold(buf: seq<byte>, m: ImageMap, recs: seq<DigestRecord>, i: nat)
    requires i < |recs|
    ensures var rest := SyncAll(ApplyRecord(buf, m, recs[i]), m, recs[i + 1..]);
      SyncAll(buf, m, recs[i..]) == (rest.0, rest.1 + if FirstMatch(buf, m, recs[i]).Some? then 1 else 0)
  {
    assert recs[i..][1..] == recs[i + 1..];
  }

  /** One record of the sync loop, written in place. */
  method ApplyRecordInPlace(data: array<byte>, m: ImageMap, rec: DigestRecord) returns (updated: bool)
    modifies data
    ensures updated == FirstMatch(old(data[..]), m, rec).Some?
    ensures data[..] == ApplyRecord(old(data[..]), m, rec)
  {
    var matched := FindMatchingImage(data[..], m, rec);
    if matched.None? {
      return false;
    }
    var crc, sha := m[matched.value].crc32.value, m[matched.value].sha1.value;
    ReadInside(data[..], crc, CRC_LEN);
    ReadInside(data[..], sha, SHA1_LEN);
    WriteBytes(data, crc.valueOffset, rec.newCrc);
    WriteBytes(data, sha.valueOffset, rec.newSha1);
    updated := true;
  }

  /** Record `i` of the sync loop: what the records from `i` on produce is its own update plus the rest's. */
  method SyncIteration(data: array<byte>, m: ImageMap, recs: seq<DigestRecord>, i: nat) returns (updated: bool)
    requires i < |recs|
    modifies data
    ensures var rest := SyncAll(data[..], m, recs[i + 1..]);
      SyncAll(old(data[..]), m, recs[i..]) == (rest.0, rest.1 + if updated then 1 else 0)
  {
    ghost var before := data[..];
    updated := ApplyRecordInPlace(data, m, recs[i]);
    SyncAllUnfold(before, m, recs, i);
  }

  /** The loop over the modified trees' records; returns the number of images updated. */
  method SyncFitHashes(data: array<byte>, m: ImageMap, recs: seq<DigestRecord>) returns (updated: nat)
    modifies data
    ensures (data[..], updated) == SyncAll(old(data[..]), m, recs)
  {
    ghost var final := SyncAll(data[..], m, recs);
    updated := 0;
    assert recs[0..] == recs;
    for i := 0 to |recs|
      invariant SyncAll(data[..], m, recs[i..]).0 == final.0
      invariant updated + SyncAll(data[..], m, recs[i..]).1 == final.1
    {
      var hit := SyncIteration(data, m, recs, i);
      if hit {
        updated := updated + 1;
      }
    }
  }

  /**
   * Without a matching image the buffer is untouched. With one, only its
   * crc32 window `[crc, crc + 4)` and sha1 window `[sha, sha + 20)` change:
   * the sha1 window holds the new sha1, and the rest of the crc32 window the
   * new crc32.
   */
  lemma ApplyRecordFrame(buf: seq<byte>, m: ImageMap, rec: DigestRecord)
    ensures FirstMatch(buf, m, rec).None? ==> ApplyRecord(buf, m, rec) == buf
    ensures FirstMatch(buf, m, rec).Some? ==>
      var i := FirstMatch(buf, m, rec).value;
      var r := ApplyRecord(buf, m, rec);
      var c, s := m[i].crc32.value.valueOffset, m[i].sha1.value.valueOffset;
      c + CRC_LEN <= |buf| && s + SHA1_LEN <= |buf|
      && (forall k :: 0 <= k < |buf| && !(c <= k < c + CRC_LEN) && !(s <= k < s + SHA1_LEN) ==> r[k] == buf[k])
      && (forall k :: s <= k < s + SHA1_LEN ==> r[k] == rec.newSha1[k - s])
      && (forall k :: c <= k < c + CRC_LEN && !(s <= k < s + SHA1_LEN) ==> r[k] == rec.newCrc[k - c])
  {
    var mt := FirstMatch(buf, m, rec);
    if mt.Some? {
      ReadInside(buf, m[mt.value].crc32.value, CRC_LEN);
      ReadInside(buf, m[mt.value].sha1.value, SHA1_LEN);
    }
  }

  /**
   * When the two windows do not overlap, as for two properties of a
   * well-formed tree, the matched image afterwards stores exactly the new
   * digests.
   */
  lemma ApplyRecordStoresNew(buf: seq<byte>, m: ImageMap, rec: DigestRecord)
    requires FirstMatch(buf, m, rec).Some?
    requires var e := m[FirstMatch(buf, m, rec).value];
      e.crc32.value.valueOffset + CRC_LEN <= e.sha1.value.valueOffset
      || e.sha1.value.valueOffset + SHA1_LEN <= e.crc32.value.valueOffset
    ensures var e := m[FirstMatch(buf, m, rec).value];
      var r := ApplyRecord(buf, m, rec);
      ReadPropBytes(r, e.crc32.value) == rec.newCrc && ReadPropBytes(r, e.sha1.value) == rec.newSha1
  {
    ApplyRecordFrame(buf, m, rec);
    var e := m[FirstMatch(buf, m, rec).value];
    var r := ApplyRecord(buf, m, rec);
    assert |ReadPropBytes(r, e.crc32.value)| == CRC_LEN;
    assert |ReadPropBytes(r, e.sha1.value)| == SHA1_LEN;
  }

  /**
   * In an image grouped from a tree's ordered properties, a crc32 value read
   * as 4 bytes and a sha1 value read as 20 bytes occupy disjoint windows.
   */
  lemma GroupWindowsDisjoint(props: seq<PropertyRef>, buf: seq<byte>, e: ImageEntry)
    requires Ordered(props)
    requires e.crc32.Some? && e.sha1.Some?
    requires e.crc32.value in props && e.sha1.value in props && e.crc32.value.nodePath != e.sha1.value.nodePath
    requires |ReadPropBytes(buf, e.crc32.value)| == CRC_LEN && |ReadPropBytes(buf, e.sha1.value)| == SHA1_LEN
    ensures e.crc32.value.valueOffset + CRC_LEN <= e.sha1.value.valueOffset
      || e.sha1.value.valueOffset + SHA1_LEN <= e.crc32.value.valueOffset
  {
    var c, sh := e.crc32.value, e.sha1.value;
    var j :| 0 <= j < |props| && props[j] == c;
    var k :| 0 <= k < |props| && props[k] == sh;
    assert j != k;
  }

  /**
   * For the image map of a parsed FIT tree, a matched image afterwards stores
   * exactly the new digests: its two windows never overlap.
   */
  lemma GroupStoresNew(fw: seq<byte>, base: nat, hdr: Header, blob: seq<byte>, buf: seq<byte>, rec: DigestRecord)
    requires Properties(fw, base, hdr).Some?
    requires FirstMatch(buf, Group(Properties(fw, base, hdr).value, blob), rec).Some?
    ensures var m := Group(Properties(fw, base, hdr).value, blob);
      var e := m[FirstMatch(buf, m, rec).value];
      var r := ApplyRecord(buf, m, rec);
      ReadPropBytes(r, e.crc32.value) == rec.newCrc && ReadPropBytes(r, e.sha1.value) == rec.newSha1
  {
    var props := Properties(fw, base, hdr).value;
    var m := Group(props, blob);
    var i := FirstMatch(buf, m, rec).value;
    PropertiesLocated(fw, base, hdr);
    GroupDigestsDistinct(props, blob, i);
    GroupWindowsDisjoint(props, buf, m[i]);
    ApplyRecordStoresNew(buf, m, rec);
  }

  /** With no records, or no record matching, the sync changes nothing and updates no image. */
  lemma {:induction false} SyncNoMatchUnchanged(buf: seq<byte>, m: ImageMap, recs: seq<DigestRecord>)
    requires forall k :: 0 <= k < |recs| ==> forall j :: 0 <= j < |m| ==> !EntryMatches(buf, m[j], recs[k])
    ensures SyncAll(buf, m, recs) == (buf, 0)
    decreases |recs|
  {
    if recs != [] {
      assert FirstMatch(buf, m, recs[0]).None?;
      SyncNoMatchUnchanged(buf, m, recs[1..]);
    }
  }

  /**
   * The FIT step that ends a run: with records to apply and the step not
   * disabled, the first FIT tree's image digests are brought in step with
   * them; `None` when parsing that tree raises.
   */
  function FitStep(buf: seq<byte>, dtbs: seq<Hit>, recs: seq<DigestRecord>, disabled: bool): (r: Option<seq<byte>>)
    ensures r.Some? ==> |r.value| == |buf|
    ensures recs == [] || disabled ==> r == Some(buf)
  {
    if recs == [] || disabled then Some(buf)
    else
      match DetectFitSpec(dtbs, buf)
      case NoFit => Some(buf)
      case FitRaised(_) => None
      case Fit(_, props) => Some(SyncAll(buf, Group(props, buf), recs).0)
  }

  /** The FIT step, in place; `false` when it raises. */
  method FitStepInPlace(data: array<byte>, dtbs: seq<Hit>, recs: seq<DigestRecord>, disabled: bool) returns (ok: bool)
    modifies data
    ensures var spec := FitStep(old(data[..]), dtbs, recs, disabled);
      ok == spec.Some? && (ok ==> data[..] == spec.value)
  {
    if recs == [] || disabled {
      return true;
    }
    var fit := DetectFit(dtbs, data[..]);
    match fit {
      case NoFit => return true;
      case FitRaised(_) => return false;
      case Fit(_, props) =>
        var imageHashes := GroupFitImageHashes(props, data[..]);
        var _ := SyncFitHashes(data, imageHashes, recs);
        return true;
    }
  }
}
