/**
 * The 40-byte header of a flattened devicetree blob: ten big-endian 32-bit
 * words starting with the magic 0xD00DFEED (section 5.2 of the Devicetree
 * Specification v0.4). `DtbHeader` and `DtbHeader.parse` in fix_led.py.
 */
module FdtHeader {
  import opened Wrappers
  import opened Bytes

  const FDT_MAGIC: nat := 0xD00DFEED
  const HEADER_SIZE: nat := 40

  type HeaderWords = w: seq<nat> | |w| == 10 witness [0, 0, 0, 0, 0, 0, 0, 0, 0, 0]

  /**
   * The ten header fields in on-disk order: magic, totalsize, off_dt_struct,
   * off_dt_strings, off_mem_rsvmap, version, last_comp_version,
   * boot_cpuid_phys, size_dt_strings, size_dt_struct.
   */
  datatype Header = Header(fields: HeaderWords)
  {
    function Magic(): nat { fields[0] }
    function TotalSize(): nat { fields[1] }
    function OffDtStruct(): nat { fields[2] }
    function OffDtStrings(): nat { fields[3] }
    function OffMemRsvmap(): nat { fields[4] }
    function Version(): nat { fields[5] }
    function LastCompVersion(): nat { fields[6] }
    function BootCpuidPhys(): nat { fields[7] }
    function SizeDtStrings(): nat { fields[8] }
    function SizeDtStruct(): nat { fields[9] }
  }

  /** `struct.unpack_from(">{n}I", data, off)`: `n` consecutive big-endian words. */
  function ReadWords(data: seq<byte>, off: nat, n: nat): (r: seq<nat>)
    requires off + 4 * n <= |data|
    ensures |r| == n && forall k :: 0 <= k < n ==> r[k] < TWO32
    decreases n
  {
    if n == 0 then [] else [Be32At(data, off)] + ReadWords(data, off + 4, n - 1)
  }

  /** Word `k` read is the big-endian word at `off + 4 * k`. */
  lemma {:induction false} ReadWordsAt(data: seq<byte>, off: nat, n: nat, k: nat)
    requires off + 4 * n <= |data| && k < n
    ensures ReadWords(data, off, n)[k] == Be32At(data, off + 4 * k)
    decreases n
  {
    if k > 0 {
      ReadWordsAt(data, off + 4, n - 1, k - 1);
    }
  }

  /**
   * `DtbHeader.parse(data, off)`: nothing when fewer than 40 bytes remain or the
   * first word is not the magic; otherwise the ten big-endian words at `off`.
   */
  function Parse(data: seq<byte>, off: nat): (r: Option<Header>)
    ensures r.None? <==> off + HEADER_SIZE > |data| || Be32At(data, off) != FDT_MAGIC
    ensures r.Some? ==> r.value.Magic() == FDT_MAGIC && r.value.fields == ReadWords(data, off, 10)
  {
    if off + HEADER_SIZE > |data| || Be32At(data, off) != FDT_MAGIC then None
    else Some(Header(ReadWords(data, off, 10)))
  }

  /** The bytes a sequence of 32-bit words is stored as. */
  function EncodeWords(ws: seq<nat>): (r: seq<byte>)
    requires forall k :: 0 <= k < |ws| ==> ws[k] < TWO32
    ensures |r| == 4 * |ws|
  {
    if ws == [] then [] else Pack32(ws[0]) + EncodeWords(ws[1..])
  }

  /** Every field fits in 32 bits. */
  predicate Encodable(h: Header)
  {
    forall k :: 0 <= k < 10 ==> h.fields[k] < TWO32
  }

  /** The 40 bytes a header is stored as. */
  function Encode(h: Header): (r: seq<byte>)
    requires Encodable(h)
    ensures |r| == HEADER_SIZE
  {
    EncodeWords(h.fields)
  }

  /** Words stored in a buffer are read back unchanged. */
  lemma {:induction false} ReadEncoded(ws: seq<nat>, data: seq<byte>, off: nat)
    requires forall k :: 0 <= k < |ws| ==> ws[k] < TWO32
    requires off + 4 * |ws| <= |data| && data[off..off + 4 * |ws|] == EncodeWords(ws)
    ensures ReadWords(data, off, |ws|) == ws
    decreases |ws|
  {
    if ws != [] {
      var e := EncodeWords(ws);
      assert data[off..off + 4] == e[..4] == Pack32(ws[0]);
      UnpackPack(ws[0]);
      Be32Injective(data, off, Pack32(ws[0]), 0);
      assert data[off + 4..off + 4 * |ws|] == e[4..] == EncodeWords(ws[1..]);
      ReadEncoded(ws[1..], data, off + 4);
    }
  }

  /** Re-encoding the words read from a buffer gives back its bytes. */
  lemma {:induction false} EncodeRead(data: seq<byte>, off: nat, n: nat)
    requires off + 4 * n <= |data|
    ensures EncodeWords(ReadWords(data, off, n)) == data[off..off + 4 * n]
    decreases n
  {
    if n > 0 {
      PackUnpack(data, off);
      EncodeRead(data, off + 4, n - 1);
      assert ReadWords(data, off, n)[1..] == ReadWords(data, off + 4, n - 1);
      assert data[off..off + 4 * n] == data[off..off + 4] + data[off + 4..off + 4 * n];
    }
  }

  /** A header with the magic, stored anywhere in a buffer, is parsed back unchanged. */
  lemma ParseEncode(h: Header, data: seq<byte>, off: nat)
    requires Encodable(h) && h.Magic() == FDT_MAGIC
    requires off + HEADER_SIZE <= |data| && data[off..off + HEADER_SIZE] == Encode(h)
    ensures Parse(data, off) == Some(h)
  {
    ReadEncoded(h.fields, data, off);
  }

  /** A parsed header is exactly the 40 bytes it was read from. */
  lemma EncodeParse(data: seq<byte>, off: nat)
    requires Parse(data, off).Some?
    ensures Encodable(Parse(data, off).value)
    ensures data[off..off + HEADER_SIZE] == Encode(Parse(data, off).value)
  {
    EncodeRead(data, off, 10);
  }
}
