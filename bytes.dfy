/** Bytes and the big-endian 32-bit words (`struct.Struct(">I")`) of a flattened devicetree. */
module Bytes {

  newtype byte = b: int | 0 <= b < 256

  const TWO32: int := 0x1_0000_0000

  /** Converts an ASCII literal to its bytes. */
  function Ascii(s: string): (r: seq<byte>)
    requires forall i :: 0 <= i < |s| ==> s[i] as int < 256
    ensures |r| == |s| && forall i :: 0 <= i < |s| ==> r[i] as int == s[i] as int
  {
    seq(|s|, i requires 0 <= i < |s| => s[i] as int as byte)
  }

  /** The unsigned big-endian 32-bit word at offset `i` (`U32.unpack_from(s, i)`). */
  function Be32At(s: seq<byte>, i: nat): (r: nat)
    requires i + 4 <= |s|
    ensures r < TWO32
  {
    ((s[i] as int * 256 + s[i + 1] as int) * 256 + s[i + 2] as int) * 256 + s[i + 3] as int
  }

  /** `struct.pack(">I", v)`: the four big-endian bytes of a word. */
  function Pack32(v: nat): (r: seq<byte>)
    requires v < TWO32
    ensures |r| == 4
  {
    [(v / 256 / 256 / 256) as byte, (v / 256 / 256 % 256) as byte, (v / 256 % 256) as byte, (v % 256) as byte]
  }

  /** Reading back a packed word gives the word. */
  lemma UnpackPack(v: nat)
    requires v < TWO32
    ensures Be32At(Pack32(v), 0) == v
  {
    var q1 := v / 256;
    var q2 := q1 / 256;
    assert v == q1 * 256 + v % 256;
    assert q1 == q2 * 256 + q1 % 256;
    assert q2 == q2 / 256 * 256 + q2 % 256;
  }

  /** Packing the word read at `i` gives back the four bytes at `i`. */
  lemma PackUnpack(s: seq<byte>, i: nat)
    requires i + 4 <= |s|
    ensures Pack32(Be32At(s, i)) == s[i..i + 4]
  {
    var v := Be32At(s, i);
    var a, b, c, d := s[i] as int, s[i + 1] as int, s[i + 2] as int, s[i + 3] as int;
    assert v / 256 == (a * 256 + b) * 256 + c && v % 256 == d;
    assert v / 256 / 256 == a * 256 + b && v / 256 % 256 == c;
    assert v / 256 / 256 / 256 == a && v / 256 / 256 % 256 == b;
  }

  /** Two four-byte windows hold the same word exactly when they hold the same bytes. */
  lemma Be32Injective(s: seq<byte>, i: nat, t: seq<byte>, j: nat)
    requires i + 4 <= |s| && j + 4 <= |t|
    ensures Be32At(s, i) == Be32At(t, j) <==> s[i..i + 4] == t[j..j + 4]
  {
    PackUnpack(s, i);
    PackUnpack(t, j);
    if s[i..i + 4] == t[j..j + 4] {
      assert s[i] == t[j] && s[i + 1] == t[j + 1] && s[i + 2] == t[j + 2] && s[i + 3] == t[j + 3] by {
        assert s[i..i + 4][0] == t[j..j + 4][0] && s[i..i + 4][1] == t[j..j + 4][1];
        assert s[i..i + 4][2] == t[j..j + 4][2] && s[i..i + 4][3] == t[j..j + 4][3];
      }
    }
  }

  /**
   * `align4(x) = (x + 3) & ~3`: clearing the two low bits of `x + 3`, which
   * for a non-negative `x` is the least multiple of 4 at or above `x`.
   */
  function Align4(x: nat): (r: nat)
    ensures r % 4 == 0 && x <= r < x + 4
  {
    (x + 3) - (x + 3) % 4
  }
  /** `s` with the bytes at `at .. at + |w|` replaced by `w`; the length stays the same. */
  function Splice(s: seq<byte>, at: nat, w: seq<byte>): (r: seq<byte>)
    requires at + |w| <= |s|
    ensures |r| == |s|
    ensures forall k :: 0 <= k < |s| ==> r[k] == if at <= k < at + |w| then w[k - at] else s[k]
  {
    s[..at] + w + s[at + |w|..]
  }

  /** Writing `w` at `at` of a buffer in place (`buf[at:at + len(w)] = w`, `struct.pack_into`). */
  method WriteBytes(buf: array<byte>, at: nat, w: seq<byte>)
    requires at + |w| <= buf.Length
    modifies buf
    ensures buf[..] == Splice(old(buf[..]), at, w)
  {
    for k := 0 to |w|
      invariant forall j :: 0 <= j < buf.Length ==>
        buf[j] == if at <= j < at + k then w[j - at] else old(buf[j])
    {
      buf[at + k] := w[k];
    }
  }
}
