/**
 * Rewriting the middle cell of a three-cell `gpios` value in place:
 * `patch_gpios_triplet_second` (optional expected-value guard) and the
 * two-board patcher's `patch_gpios` (mandatory guard). Both unpack the three
 * big-endian words at the value offset, which raises `struct.error` when fewer
 * than 12 bytes are left, and pack the new value back, which raises when it
 * does not fit in 32 unsigned bits.
 */
module GpioPatch {
  import opened Wrappers
  import opened Bytes
  import opened FdtWalk

  /** The length of a three-cell value. */
  const TRIPLET_LEN: nat := 12

  /** What a patch call did: rewrote the cell, returned `False`, or raised `struct.error`. */
  datatype PatchOutcome = Changed | Unchanged | Raised

  /** The current middle cell of the triplet at `p`. */
  function SecondCell(buf: seq<byte>, p: PropertyRef): (r: nat)
    requires p.valueOffset + TRIPLET_LEN <= |buf|
    ensures r < TWO32
  {
    Be32At(buf, p.valueOffset + 4)
  }

  /** The outcome of `patch_gpios_triplet_second(buf, p, expected, newSecond)`. */
  function TripletOutcome(buf: seq<byte>, p: PropertyRef, expected: Option<int>, newSecond: int): PatchOutcome
  {
    if p.valueLen != TRIPLET_LEN then Unchanged
    else if p.valueOffset + TRIPLET_LEN > |buf| then Raised
    else
      var b := SecondCell(buf, p);
      if expected.Some? && b != expected.value then Unchanged
      else if b == newSecond then Unchanged
      else if !(0 <= newSecond < TWO32) then Raised
      else Changed
  }

  /** The buffer with the middle cell of the triplet at `p` set to `v`. */
  function WithSecondCell(buf: seq<byte>, p: PropertyRef, v: nat): seq<byte>
    requires p.valueOffset + TRIPLET_LEN <= |buf| && v < TWO32
  {
    Splice(buf, p.valueOffset + 4, Pack32(v))
  }

  /** The buffer after the call: patched when it returns `True`, as before otherwise. */
  function AfterTriplet(buf: seq<byte>, p: PropertyRef, expected: Option<int>, newSecond: int): seq<byte>
  {
    if TripletOutcome(buf, p, expected, newSecond) == Changed then WithSecondCell(buf, p, newSecond) else buf
  }

  /** Packing the first and third cells back unchanged leaves their bytes as they were. */
  lemma RepackOuterCells(buf: seq<byte>, at: nat, v: nat)
    requires at + TRIPLET_LEN <= |buf| && v < TWO32
    ensures Splice(buf, at, Pack32(Be32At(buf, at)) + Pack32(v) + Pack32(Be32At(buf, at + 8)))
      == Splice(buf, at + 4, Pack32(v))
  {
    PackUnpack(buf, at);
    PackUnpack(buf, at + 8);
    var w := Pack32(Be32At(buf, at)) + Pack32(v) + Pack32(Be32At(buf, at + 8));
    var r, s := Splice(buf, at, w), Splice(buf, at + 4, Pack32(v));
    forall k | 0 <= k < |buf|
      ensures r[k] == s[k]
    {
      if at <= k < at + 4 {
        assert w[k - at] == buf[at..at + 4][k - at];
      } else if at + 8 <= k < at + 12 {
        assert w[k - at] == buf[at + 8..at + 12][k - at - 8];
      }
    }
  }

  /** `struct.pack_into(">III", data, at, a, v, c)` with `a` and `c` the cells read there: only the middle cell changes. */
  method PackTriplet(data: array<byte>, at: nat, a: nat, v: nat, c: nat)
    requires at + TRIPLET_LEN <= data.Length && v < TWO32
    requires a == Be32At(data[..], at) && c == Be32At(data[..], at + 8)
    modifies data
    ensures data[..] == Splice(old(data[..]), at + 4, Pack32(v))
  {
    RepackOuterCells(data[..], at, v);
    WriteBytes(data, at, Pack32(a) + Pack32(v) + Pack32(c));
  }

  /** `patch_gpios_triplet_second(data, prop, expect_second, new_second)`. */
  method PatchTripletSecond(data: array<byte>, p: PropertyRef, expected: Option<int>, newSecond: int)
    returns (outcome: PatchOutcome)
    modifies data
    ensures outcome == TripletOutcome(old(data[..]), p, expected, newSecond)
    ensures data[..] == AfterTriplet(old(data[..]), p, expected, newSecond)
  {
    if p.valueLen != TRIPLET_LEN {
      return Unchanged;
    }
    if p.valueOffset + TRIPLET_LEN > data.Length {
      return Raised;
    }
    var a := Be32At(data[..], p.valueOffset);
    var b := Be32At(data[..], p.valueOffset + 4);
    var c := Be32At(data[..], p.valueOffset + 8);
    if expected.Some? && b != expected.value {
      return Unchanged;
    }
    if b == newSecond {
      return Unchanged;
    }
    if !(0 <= newSecond < TWO32) {
      return Raised;
    }
    PackTriplet(data, p.valueOffset, a, newSecond, c);
    outcome := Changed;
  }

  /**
   * The call returns `False` exactly when the value is not 12 bytes long, or
   * when the middle cell differs from a supplied expected value, or already
   * holds the new value.
   */
  lemma TripletUnchangedCases(buf: seq<byte>, p: PropertyRef, expected: Option<int>, newSecond: int)
    ensures TripletOutcome(buf, p, expected, newSecond) == Unchanged <==>
      p.valueLen != TRIPLET_LEN
      || (p.valueOffset + TRIPLET_LEN <= |buf|
          && ((expected.Some? && SecondCell(buf, p) != expected.value) || SecondCell(buf, p) == newSecond))
  {
  }

  /**
   * It raises exactly when a 12-byte value runs past the buffer, or when every
   * check passes but the new value does not fit in 32 unsigned bits.
   */
  lemma TripletRaisedCases(buf: seq<byte>, p: PropertyRef, expected: Option<int>, newSecond: int)
    ensures TripletOutcome(buf, p, expected, newSecond) == Raised <==>
      p.valueLen == TRIPLET_LEN
      && (p.valueOffset + TRIPLET_LEN > |buf|
          || ((expected.None? || SecondCell(buf, p) == expected.value)
              && SecondCell(buf, p) != newSecond && !(0 <= newSecond < TWO32)))
  {
  }

  /**
   * A successful patch changes only bytes `[value_offset + 4, value_offset + 8)`,
   * which then hold the new value big-endian; the buffer keeps its length and
   * the first and third cells keep their values.
   */
  lemma SecondCellFrame(buf: seq<byte>, p: PropertyRef, v: nat)
    requires p.valueOffset + TRIPLET_LEN <= |buf| && v < TWO32
    ensures var r := WithSecondCell(buf, p, v);
      |r| == |buf|
      && (forall k :: 0 <= k < |buf| && !(p.valueOffset + 4 <= k < p.valueOffset + 8) ==> r[k] == buf[k])
      && SecondCell(r, p) == v
      && Be32At(r, p.valueOffset) == Be32At(buf, p.valueOffset)
      && Be32At(r, p.valueOffset + 8) == Be32At(buf, p.valueOffset + 8)
  {
    var r := WithSecondCell(buf, p, v);
    var at := p.valueOffset + 4;
    assert r[at..at + 4] == Pack32(v);
    PackUnpack(r, at);
    UnpackPack(v);
    assert Pack32(Be32At(r, at)) == Pack32(v);
    assert Be32At(Pack32(v), 0) == Be32At(r, at) by {
      Be32Injective(Pack32(v), 0, r, at);
      assert Pack32(v)[0..4] == Pack32(v);
    }
  }

  /** Patching is idempotent: once the cell holds the new value, the same call changes nothing. */
  lemma TripletIdempotent(buf: seq<byte>, p: PropertyRef, expected: Option<int>, again: Option<int>, newSecond: int)
    requires TripletOutcome(buf, p, expected, newSecond) == Changed
    ensures var r := AfterTriplet(buf, p, expected, newSecond);
      TripletOutcome(r, p, again, newSecond) == Unchanged && AfterTriplet(r, p, again, newSecond) == r
  {
    SecondCellFrame(buf, p, newSecond);
  }

  /** The outcome of the two-board patcher's `patch_gpios(buf, p, expected, newSecond)`: the guard is mandatory. */
  function GpiosOutcome(buf: seq<byte>, p: PropertyRef, expected: int, newSecond: int): PatchOutcome
  {
    if p.valueLen != TRIPLET_LEN then Unchanged
    else if p.valueOffset + TRIPLET_LEN > |buf| then Raised
    else
      var b := SecondCell(buf, p);
      if b != expected then Unchanged
      else if b == newSecond then Unchanged
      else if !(0 <= newSecond < TWO32) then Raised
      else Changed
  }

  /** `patch_gpios(data, prop, expect_second, new_second)`. */
  method PatchGpios(data: array<byte>, p: PropertyRef, expected: int, newSecond: int) returns (outcome: PatchOutcome)
    modifies data
    ensures outcome == GpiosOutcome(old(data[..]), p, expected, newSecond)
    ensures data[..] == if outcome == Changed then WithSecondCell(old(data[..]), p, newSecond) else old(data[..])
  {
    if p.valueLen != TRIPLET_LEN {
      return Unchanged;
    }
    if p.valueOffset + TRIPLET_LEN > data.Length {
      return Raised;
    }
    var a := Be32At(data[..], p.valueOffset);
    var b := Be32At(data[..], p.valueOffset + 4);
    var c := Be32At(data[..], p.valueOffset + 8);
    if b != expected {
      return Unchanged;
    }
    if b == newSecond {
      return Unchanged;
    }
    if !(0 <= newSecond < TWO32) {
      return Raised;
    }
    PackTriplet(data, p.valueOffset, a, newSecond, c);
    outcome := Changed;
  }

  /** `patch_gpios` behaves as the triplet patch with the expected value always supplied. */
  lemma GpiosIsGuardedTriplet(buf: seq<byte>, p: PropertyRef, expected: int, newSecond: int)
    ensures GpiosOutcome(buf, p, expected, newSecond) == TripletOutcome(buf, p, Some(expected), newSecond)
  {
  }

  /**
   * With the guard mandatory, an expected value equal to the new value never
   * patches, and a mismatching cell is never touched.
   */
  lemma GpiosGuard(buf: seq<byte>, p: PropertyRef, expected: int, newSecond: int)
    ensures GpiosOutcome(buf, p, expected, expected) != Changed
    ensures GpiosOutcome(buf, p, expected, newSecond) == Changed ==>
      p.valueLen == TRIPLET_LEN && p.valueOffset + TRIPLET_LEN <= |buf|
      && SecondCell(buf, p) == expected && expected != newSecond && 0 <= newSecond < TWO32
  {
  }
}
