/**
 * `scan_dtbs`: finds every embedded devicetree blob in a firmware image by
 * searching for the magic word and keeping the candidates whose header parses
 * and whose declared total size fits in the image.
 */
module FdtScan {
  import opened Wrappers
  import opened Seqs
  import opened Bytes
  import opened FdtHeader

  /** `struct.pack(">I", FDT_MAGIC)`. */
  const MAGIC_BYTES: seq<byte> := [0xD0, 0x0D, 0xFE, 0xED]

  datatype Hit = Hit(offset: nat, header: Header)

  /** A blob at `off` with header `h` is accepted. */
  predicate Accepted(blob: seq<byte>, off: nat, h: Header)
  {
    Parse(blob, off) == Some(h) && off + h.TotalSize() <= |blob|
  }

  /** The hit a magic match at `idx` contributes: one if its header parses and fits, none otherwise. */
  function KeptAt(blob: seq<byte>, idx: nat): (r: seq<Hit>)
    ensures |r| <= 1 && forall h :: h in r ==> h.offset == idx
  {
    var hdr := Parse(blob, idx);
    if hdr.Some? && idx + hdr.value.TotalSize() <= |blob| then [Hit(idx, hdr.value)] else []
  }

  /** A magic match contributes a hit exactly when a blob is accepted there. */
  lemma KeptAtAccepted(blob: seq<byte>, idx: nat, h: Header)
    ensures Hit(idx, h) in KeptAt(blob, idx) <==> Accepted(blob, idx, h)
    ensures Accepted(blob, idx, h) ==> KeptAt(blob, idx) == [Hit(idx, h)]
  {
  }

  /**
   * The hits a scan reports from position `pos` on: a magic word at `pos`
   * contributes its hit (if any) and the search resumes 4 bytes later;
   * anything else moves on by one byte.
   */
  function HitsFrom(blob: seq<byte>, pos: nat): seq<Hit>
    decreases |blob| - pos
  {
    if pos + 4 > |blob| then []
    else if OccursAt(blob, MAGIC_BYTES, pos) then KeptAt(blob, pos) + HitsFrom(blob, pos + 4)
    else HitsFrom(blob, pos + 1)
  }

  /** `scan_dtbs(blob)`. */
  method ScanDtbs(blob: seq<byte>) returns (hits: seq<Hit>)
    ensures hits == HitsFrom(blob, 0)
  {
    hits := [];
    var start := 0;
    while true
      invariant start <= |blob|
      invariant hits + HitsFrom(blob, start) == HitsFrom(blob, 0)
      decreases |blob| - start
    {
      var idx := Find(blob, MAGIC_BYTES, start, |blob|);
      FindSkipsNoHits(blob, start);
      if idx < 0 {
        break;
      }
      var kept := KeepCandidate(blob, idx);
      ScanStep(blob, hits, idx);
      hits := hits + kept;
      start := idx + 4;
    }
  }

  /** The check `scan_dtbs` makes at a magic match. */
  method KeepCandidate(blob: seq<byte>, idx: nat) returns (kept: seq<Hit>)
    ensures kept == KeptAt(blob, idx)
  {
    var hdr := Parse(blob, idx);
    if hdr.Some? && idx + hdr.value.TotalSize() <= |blob| {
      return [Hit(idx, hdr.value)];
    }
    return [];
  }

  /** One round of the scan at a magic match. */
  lemma ScanStep(blob: seq<byte>, hits: seq<Hit>, idx: nat)
    requires OccursAt(blob, MAGIC_BYTES, idx)
    ensures hits + HitsFrom(blob, idx) == (hits + KeptAt(blob, idx)) + HitsFrom(blob, idx + 4)
  {
    AppendAssoc(hits, KeptAt(blob, idx), HitsFrom(blob, idx + 4));
  }

  lemma AppendAssoc<T>(a: seq<T>, b: seq<T>, c: seq<T>)
    ensures (a + b) + c == a + (b + c)
  {
  }

  /** Jumping to the next magic word, as `bytes.find` does, loses no hit. */
  lemma {:induction false} FindSkipsNoHits(blob: seq<byte>, start: nat)
    ensures var idx := Find(blob, MAGIC_BYTES, start, |blob|);
      if idx < 0 then HitsFrom(blob, start) == [] else HitsFrom(blob, start) == HitsFrom(blob, idx)
    decreases |blob| - start
  {
    if start + 4 <= |blob| && !OccursAt(blob, MAGIC_BYTES, start) {
      FindSkipsNoHits(blob, start + 1);
    }
  }

  /** The magic word cannot overlap a shifted copy of itself. */
  lemma MagicNoOverlap(blob: seq<byte>, a: nat, b: nat)
    requires OccursAt(blob, MAGIC_BYTES, a) && OccursAt(blob, MAGIC_BYTES, b) && a < b
    ensures a + 4 <= b
  {
    assert blob[b] == blob[b..b + 4][0] == 0xD0;
  }

  /** A header parses only where the magic bytes are. */
  lemma ParsedAtMagic(blob: seq<byte>, off: nat)
    requires Parse(blob, off).Some?
    ensures OccursAt(blob, MAGIC_BYTES, off)
  {
    Be32Injective(blob, off, MAGIC_BYTES, 0);
  }

  /** Every reported hit is an accepted blob at or after `pos`. */
  lemma {:induction false} HitsAccepted(blob: seq<byte>, pos: nat)
    ensures forall h :: h in HitsFrom(blob, pos) ==> pos <= h.offset && Accepted(blob, h.offset, h.header)
    decreases |blob| - pos
  {
    if pos + 4 <= |blob| {
      if OccursAt(blob, MAGIC_BYTES, pos) {
        HitsAccepted(blob, pos + 4);
        forall h | h in KeptAt(blob, pos)
          ensures Accepted(blob, h.offset, h.header)
        {
          KeptAtAccepted(blob, pos, h.header);
        }
      } else {
        HitsAccepted(blob, pos + 1);
      }
    }
  }

  /** Offsets go up by at least 4 from one reported hit to the next. */
  lemma {:induction false} HitsSpaced(blob: seq<byte>, pos: nat)
    ensures forall j, k :: 0 <= j < k < |HitsFrom(blob, pos)| ==>
      HitsFrom(blob, pos)[j].offset + 4 <= HitsFrom(blob, pos)[k].offset
    decreases |blob| - pos
  {
    if pos + 4 <= |blob| {
      if OccursAt(blob, MAGIC_BYTES, pos) {
        var s, kept, rest := HitsFrom(blob, pos), KeptAt(blob, pos), HitsFrom(blob, pos + 4);
        assert s == kept + rest;
        HitsSpaced(blob, pos + 4);
        HitsAccepted(blob, pos + 4);
        forall j, k | 0 <= j < k < |s|
          ensures s[j].offset + 4 <= s[k].offset
        {
          assert s[k] == rest[k - |kept|] && s[k] in rest;
          if j < |kept| {
            assert s[j] in kept;
          } else {
            assert s[j] == rest[j - |kept|];
          }
        }
      } else {
        HitsSpaced(blob, pos + 1);
      }
    }
  }

  /** Every accepted blob at or after `pos` is reported. */
  lemma {:induction false} HitsComplete(blob: seq<byte>, pos: nat, off: nat, h: Header)
    requires pos <= off && Accepted(blob, off, h)
    ensures Hit(off, h) in HitsFrom(blob, pos)
    decreases |blob| - pos
  {
    ParsedAtMagic(blob, off);
    if OccursAt(blob, MAGIC_BYTES, pos) {
      if pos < off {
        MagicNoOverlap(blob, pos, off);
        HitsComplete(blob, pos + 4, off, h);
      } else {
        KeptAtAccepted(blob, pos, h);
      }
    } else {
      HitsComplete(blob, pos + 1, off, h);
    }
  }

  /**
   * The scan reports exactly the accepted blobs: a candidate rejected for a
   * short or oversized header does not stop the search.
   */
  lemma ScanFindsExactlyAccepted(blob: seq<byte>, off: nat, h: Header)
    ensures Hit(off, h) in HitsFrom(blob, 0) <==> Accepted(blob, off, h)
  {
    HitsAccepted(blob, 0);
    if Accepted(blob, off, h) {
      HitsComplete(blob, 0, off, h);
    }
  }

  /** Hits come in strictly ascending offset order, each one a valid blob that fits. */
  lemma ScanAscending(blob: seq<byte>)
    ensures forall j, k :: 0 <= j < k < |HitsFrom(blob, 0)| ==>
      HitsFrom(blob, 0)[j].offset < HitsFrom(blob, 0)[k].offset
    ensures forall k :: 0 <= k < |HitsFrom(blob, 0)| ==>
      HitsFrom(blob, 0)[k].offset + HitsFrom(blob, 0)[k].header.TotalSize() <= |blob|
  {
    HitsAccepted(blob, 0);
    HitsSpaced(blob, 0);
  }
}
