/**
  A model of the firmware-to-COE serialiser: a byte string becomes the text of a
  Xilinx memory-initialisation (COE) file with radix 16 and one 8-bit entry per line.

  The file handle the script writes to is modelled as a string that the writes
  append to; reading `firmware.bin` and writing `firmware.coe` are not modelled.
 */
module BinToCoe {

  /** One element of a Python `bytes` value. */
  newtype byte = b: int | 0 <= b < 256

  datatype Option<T> = None | Some(value: T)

  // ---------------------------------------------------------------------------
  // Lower-case hexadecimal digits, as written by the format spec `02x`
  // ---------------------------------------------------------------------------

  predicate IsHexDigit(c: char) {
    '0' <= c <= '9' || 'a' <= c <= 'f'
  }

  /** The lower-case hexadecimal digit for a value below 16. */
  function HexDigit(d: nat): (c: char)
    requires d < 16
    ensures IsHexDigit(c)
  {
    if d < 10 then ('0' as int + d) as char else ('a' as int + d - 10) as char
  }

  /** The value of a lower-case hexadecimal digit; HexDigit is its inverse. */
  function DigitValue(c: char): (v: nat)
    requires IsHexDigit(c)
    ensures v < 16 && HexDigit(v) == c
  {
    if c <= '9' then c as int - '0' as int else c as int - 'a' as int + 10
  }

  /** `f'{byte:02x}'`: two lower-case hex digits, zero-padded, whose value is `b`. */
  function Hex2(b: byte): (s: string)
    ensures |s| == 2 && IsHexDigit(s[0]) && IsHexDigit(s[1])
    ensures DigitValue(s[0]) * 16 + DigitValue(s[1]) == b as int
    ensures s[0] == '0' <==> b < 16
  {
    [HexDigit(b as int / 16), HexDigit(b as int % 16)]
  }

  /** Reads back one two-digit entry; None for anything `02x` never writes. */
  function ParseHex2(s: string): Option<byte>
  {
    if |s| == 2 && IsHexDigit(s[0]) && IsHexDigit(s[1])
    then Some((DigitValue(s[0]) * 16 + DigitValue(s[1])) as byte)
    else None
  }

  /** ParseHex2 accepts exactly the strings Hex2 produces, and inverts it. */
  lemma ParseHex2Inverse(s: string, b: byte)
    ensures ParseHex2(s) == Some(b) <==> s == Hex2(b)
  {
  }

  /** The examples the script's own comment gives, and the zero byte. */
  lemma Hex2Examples()
    ensures Hex2(0x0a) == "0a"
    ensures Hex2(0xff) == "ff"
    ensures Hex2(0x00) == "00"
  {
  }

  // ---------------------------------------------------------------------------
  // The COE text
  // ---------------------------------------------------------------------------

  const RadixLine: string := "memory_initialization_radix=16;\n"
  const VectorLine: string := "memory_initialization_vector=\n"
  const Header: string := RadixLine + VectorLine

  /** One line of the vector: the byte's two digits, then `;` if it is the last byte, else `,`. */
  function Entry(b: byte, last: bool): (e: string)
    ensures |e| == 4
    ensures ParseHex2(e[..2]) == Some(b)
    ensures e[2] == ';' || e[2] == ','
    ensures e[2] == ';' <==> last
    ensures e[3] == '\n'
  {
    Hex2(b) + (if last then ";\n" else ",\n")
  }

  /**
    The vector section for `data`, entry by entry in input order. The first byte
    of `data` is the last one exactly when `0 + 1 >= |data|`, the script's test.
   */
  function Vector(data: seq<byte>): (v: string)
    ensures |v| == 4 * |data|
  {
    if data == [] then [] else Entry(data[0], |data| == 1) + Vector(data[1..])
  }

  /** The whole text the script passes to `f.write` for `data`, before any newline translation. */
  function EncodeCoe(data: seq<byte>): (r: string)
    ensures |r| == |Header| + 4 * |data|
    ensures r[..|RadixLine|] == RadixLine
    ensures r[|RadixLine|..|Header|] == VectorLine
    ensures data == [] ==> r == Header
  {
    Header + Vector(data)
  }

  /**
    The loop of the script: the header lines, then one write per byte, with the
    terminator chosen by comparing `i + 1` against the length.
   */
  method EmitCoe(data: seq<byte>) returns (text: string)
    ensures text == EncodeCoe(data)
  {
    text := "";
    text := text + RadixLine;
    text := text + VectorLine;
    var i := 0;
    while i < |data|
      invariant 0 <= i <= |data|
      invariant text + Vector(data[i..]) == EncodeCoe(data)
    {
      var hexByte := Hex2(data[i]);
      assert data[i..][1..] == data[i + 1..];
      if i + 1 >= |data| {
        text := text + (hexByte + ";\n");
      } else {
        text := text + (hexByte + ",\n");
      }
      i := i + 1;
    }
    assert data[i..] == [];
  }

  // ---------------------------------------------------------------------------
  // Shape of the vector section
  // ---------------------------------------------------------------------------

  lemma {:induction false} VectorEntryAt(data: seq<byte>, k: nat)
    requires k < |data|
    ensures Vector(data)[4 * k..4 * k + 4] == Entry(data[k], k + 1 == |data|)
  {
    var e := Entry(data[0], |data| == 1);
    if k > 0 {
      VectorEntryAt(data[1..], k - 1);
      assert Vector(data)[4 * k..4 * k + 4] == Vector(data[1..])[4 * (k - 1)..4 * (k - 1) + 4];
    } else {
      assert Vector(data)[..4] == e;
    }
  }

  /**
    The k-th line after the header encodes `data[k]`: its two hex digits, then
    `;` and a newline if it is the last byte, else `,` and a newline.
   */
  lemma EncodeCoeEntryAt(data: seq<byte>, k: nat)
    requires k < |data|
    ensures var r := EncodeCoe(data);
      && r[|Header| + 4 * k..|Header| + 4 * k + 2] == Hex2(data[k])
      && r[|Header| + 4 * k + 2] == (if k + 1 == |data| then ';' else ',')
      && r[|Header| + 4 * k + 3] == '\n'
  {
    var r := EncodeCoe(data);
    var e := Entry(data[k], k + 1 == |data|);
    VectorEntryAt(data, k);
    assert r[|Header| + 4 * k..|Header| + 4 * k + 4] == Vector(data)[4 * k..4 * k + 4] == e;
    assert r[|Header| + 4 * k..|Header| + 4 * k + 2] == e[..2] == Hex2(data[k]);
  }

  /** `;` occurs in `v` only as its last-but-one character. */
  predicate SemicolonOnlyBeforeEnd(v: string, from: nat) {
    forall j :: from <= j < |v| ==> (v[j] == ';' <==> j == |v| - 2)
  }

  lemma {:induction false} VectorSemicolonOnlyAtEnd(data: seq<byte>)
    ensures SemicolonOnlyBeforeEnd(Vector(data), 0)
  {
    if data != [] {
      VectorSemicolonOnlyAtEnd(data[1..]);
      var v, e, w := Vector(data), Entry(data[0], |data| == 1), Vector(data[1..]);
      assert v == e + w;
      assert e[2] == (if |data| == 1 then ';' else ',') && e[3] == '\n';
      assert IsHexDigit(e[0]) && IsHexDigit(e[1]);
      forall j | 0 <= j < |v| ensures v[j] == ';' <==> j == |v| - 2 {
        if j >= 4 {
          assert v[j] == w[j - 4];
          assert w[j - 4] == ';' <==> j - 4 == |w| - 2;
        } else {
          assert v[j] == e[j];
        }
      }
    }
  }

  /**
    After the header, `;` occurs exactly once for a non-empty input, as the
    terminator of the final entry, and not at all for an empty input.
   */
  lemma EncodeCoeSemicolonOnlyAtEnd(data: seq<byte>)
    ensures SemicolonOnlyBeforeEnd(EncodeCoe(data), |Header|)
    ensures data != [] ==> EncodeCoe(data)[|EncodeCoe(data)| - 2] == ';'
  {
    var r, v := EncodeCoe(data), Vector(data);
    VectorSemicolonOnlyAtEnd(data);
    assert r == Header + v;
    forall j | |Header| <= j < |r| ensures r[j] == ';' <==> j == |r| - 2 {
      assert r[j] == v[j - |Header|];
    }
  }

  // ---------------------------------------------------------------------------
  // Decoding a COE text back to bytes
  // ---------------------------------------------------------------------------

  /** Parses a vector section: entries of two hex digits, `,\n` between them, `;\n` after the last. */
  function DecodeEntries(v: string): Option<seq<byte>>
    decreases |v|
  {
    if |v| < 4 then None
    else match ParseHex2(v[..2])
      case None => None
      case Some(b) =>
        if v[2..4] == ";\n" then
          if |v| == 4 then Some([b]) else None
        else if v[2..4] == ",\n" then
          match DecodeEntries(v[4..])
          case None => None
          case Some(rest) => Some([b] + rest)
        else None
  }

  /** Strips the two header lines and parses what follows; an empty vector is no bytes. */
  function DecodeCoe(text: string): Option<seq<byte>>
  {
    if |text| < |Header| || text[..|Header|] != Header then None
    else if |text| == |Header| then Some([])
    else DecodeEntries(text[|Header|..])
  }

  lemma {:induction false} DecodeVector(data: seq<byte>)
    requires data != []
    ensures DecodeEntries(Vector(data)) == Some(data)
  {
    var v, e := Vector(data), Entry(data[0], |data| == 1);
    assert v == e + Vector(data[1..]);
    ParseHex2Inverse(v[..2], data[0]);
    assert v[..2] == e[..2] == Hex2(data[0]);
    assert v[2..4] == e[2..4] == (if |data| == 1 then ";\n" else ",\n");
    assert v[4..] == Vector(data[1..]);
    if |data| > 1 {
      DecodeVector(data[1..]);
      assert [data[0]] + data[1..] == data;
    } else {
      assert data == [data[0]];
    }
  }

  /** Round trip: decoding the encoder's output recovers the bytes exactly. */
  lemma DecodeEncode(data: seq<byte>)
    ensures DecodeCoe(EncodeCoe(data)) == Some(data)
  {
    var r := EncodeCoe(data);
    assert r[..|Header|] == Header;
    if data != [] {
      assert r[|Header|..] == Vector(data);
      DecodeVector(data);
    }
  }

  lemma {:induction false} DecodeEntriesSound(v: string, data: seq<byte>)
    requires DecodeEntries(v) == Some(data)
    ensures data != [] && Vector(data) == v
  {
    var b := ParseHex2(v[..2]).value;
    ParseHex2Inverse(v[..2], b);
    if v[2..4] == ";\n" {
      assert data == [b];
      assert v == v[..2] + v[2..4];
    } else {
      var rest := DecodeEntries(v[4..]).value;
      DecodeEntriesSound(v[4..], rest);
      assert data == [b] + rest;
      assert data[1..] == rest;
      assert v == v[..2] + v[2..4] + v[4..];
    }
  }

  /** The decoder accepts only texts the encoder produces: its result re-encodes to the same text. */
  lemma EncodeDecode(text: string, data: seq<byte>)
    requires DecodeCoe(text) == Some(data)
    ensures EncodeCoe(data) == text
  {
    if |text| == |Header| {
      assert text == Header;
    } else {
      DecodeEntriesSound(text[|Header|..], data);
      assert text == text[..|Header|] + text[|Header|..];
    }
  }
}
