/** Byte sequences with the semantics of a sparse file: reading past the end gives zeros,
    writing past the end fills the gap with zeros. */
module Bytes {
  import opened Arith

  type byte = b: int | 0 <= b < 256

  /** Byte `i` of a zero-filled, unbounded view of `s`. */
  function At(s: seq<byte>, i: nat): byte {
    if i < |s| then s[i] else 0
  }

  function Zeros(n: nat): (z: seq<byte>)
    ensures |z| == n && forall i :: 0 <= i < n ==> z[i] == 0
  {
    seq(n, _ => 0)
  }

  /** `lseek` to `pos` followed by `write`: the gap, if any, reads as zeros afterwards. */
  function PWrite(s: seq<byte>, pos: nat, data: seq<byte>): (r: seq<byte>)
    ensures |r| == if data == [] then |s| else if pos + |data| < |s| then |s| else pos + |data|
  {
    if data == [] then s
    else
      var base := if |s| < pos then s + Zeros(pos - |s|) else s;
      base[..pos] + data + (if pos + |data| < |s| then s[pos + |data|..] else [])
  }

  lemma PWriteAt(s: seq<byte>, pos: nat, data: seq<byte>, i: nat)
    ensures At(PWrite(s, pos, data), i) == if pos <= i < pos + |data| then data[i - pos] else At(s, i)
  {
  }

  /** The bytes `[pos, pos + len)` of the zero-filled view of `s`. */
  function Window(s: seq<byte>, pos: nat, len: nat): (w: seq<byte>)
    ensures |w| == len && forall i :: 0 <= i < len ==> w[i] == At(s, pos + i)
  {
    seq<byte>(len, i requires 0 <= i < len => At(s, pos + i))
  }

  /** `lseek` to `pos` followed by `read` of at most `len` bytes: short at the end of the file. */
  function PRead(s: seq<byte>, pos: nat, len: nat): (r: seq<byte>)
    ensures |r| <= len
    ensures forall i: nat :: i < len ==> At(r, i) == At(s, pos + i)
  {
    if |s| <= pos then [] else if |s| <= pos + len then s[pos..] else s[pos..pos + len]
  }

  // ---------------------------------------------------------------------------------------------
  // A `__u32` as the four bytes of a little-endian host.

  function Le32(b: seq<byte>): u32
    requires |b| == 4
  {
    b[0] as int + b[1] as int * 0x100 + b[2] as int * 0x1_0000 + b[3] as int * 0x100_0000
  }

  function Le32Bytes(x: u32): (b: seq<byte>)
    ensures |b| == 4
  {
    [x % 0x100, x / 0x100 % 0x100, x / 0x1_0000 % 0x100, x / 0x100_0000]
  }

  lemma Le32RoundTrip(x: u32)
    ensures Le32(Le32Bytes(x)) == x
  {
    var (q, r) := (x / 0x100, x / 0x1_0000);
    assert x == q * 0x100 + x % 0x100;
    assert r == q / 0x100 && q == r * 0x100 + q % 0x100;
    assert x / 0x100_0000 == r / 0x100 && r == r / 0x100 * 0x100 + r % 0x100;
  }

  // ---------------------------------------------------------------------------------------------
  // C strings in fields of fixed size

  /** `strncpy` into a field: the text, filled up with zeros. */
  function FixedText(text: string, width: nat): (b: seq<byte>)
    ensures |b| == width
  {
    seq<byte>(width, i requires 0 <= i < width => if i < |text| then text[i] as int % 256 else 0)
  }

  /** The field read as a C string. */
  function CString(field: seq<byte>): string {
    if field == [] || field[0] == 0 then "" else [field[0] as char] + CString(field[1..])
  }

  /** A text of bytes other than zero that fits the field. */
  predicate IsText(text: string, width: nat) {
    |text| <= width && forall i :: 0 <= i < |text| ==> 0 < text[i] as int < 256
  }

  lemma {:induction false} TextRoundTrip(text: string, width: nat)
    requires IsText(text, width)
    ensures CString(FixedText(text, width)) == text
  {
    var field := FixedText(text, width);
    if text != "" {
      TextRoundTrip(text[1..], width - 1);
      assert field[1..] == FixedText(text[1..], width - 1);
      assert text == [text[0]] + text[1..];
    }
  }
}
