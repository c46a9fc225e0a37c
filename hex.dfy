/** Bytes, C-string views of byte buffers, and the lower-case hexadecimal text
    that `sha256_hex` writes for a SHA-256 digest. */
module HexEncoding {

  type byte = b: int | 0 <= b < 256

  /** Size of a digest in bytes, and of the buffer `sha256_hex` fills:
      two characters per digest byte and a terminating NUL (HASH_HEX_LEN). */
  const DIGEST_LEN: nat := 32
  const HASH_HEX_LEN: nat := 2 * DIGEST_LEN + 1

  type Digest = d: seq<byte> | |d| == DIGEST_LEN witness seq(32, _ => 0)

  /** The SHA-256 primitive is only declared by the program, so the model takes it as a
      parameter: any total function from byte strings to 32-byte digests. */
  type Sha256 = seq<byte> -> Digest

  /** The ASCII codes of '0'..'9' and 'a'..'f'. */
  predicate IsHexDigit(b: byte) {
    48 <= b <= 57 || 97 <= b <= 102
  }

  /** The character `%x` prints for a nibble. */
  function HexDigit(v: nat): (b: byte)
    requires v < 16
    ensures IsHexDigit(b)
    ensures b != 0
  {
    if v < 10 then 48 + v else 87 + v
  }

  /** The nibble a hex character stands for; the inverse of HexDigit. */
  function DigitValue(b: byte): (v: nat)
    requires IsHexDigit(b)
    ensures v < 16 && HexDigit(v) == b
  {
    if b <= 57 then b - 48 else b - 87
  }

  /** The `%02x` text of each byte in turn. */
  function Hex(d: seq<byte>): (r: seq<byte>)
    ensures |r| == 2 * |d|
    ensures forall i :: 0 <= i < |r| ==> IsHexDigit(r[i])
  {
    if d == [] then [] else [HexDigit(d[0] / 16), HexDigit(d[0] % 16)] + Hex(d[1..])
  }

  /** Reads hexadecimal text back into bytes. */
  function Unhex(s: seq<byte>): (d: seq<byte>)
    requires |s| % 2 == 0
    requires forall i :: 0 <= i < |s| ==> IsHexDigit(s[i])
    ensures 2 * |d| == |s|
  {
    if s == [] then [] else [DigitValue(s[0]) * 16 + DigitValue(s[1])] + Unhex(s[2..])
  }

  lemma {:induction false} UnhexHex(d: seq<byte>)
    ensures Unhex(Hex(d)) == d
  {
    if d != [] {
      var h := Hex(d);
      assert h[2..] == Hex(d[1..]);
      UnhexHex(d[1..]);
      assert DigitValue(h[0]) == d[0] / 16 && DigitValue(h[1]) == d[0] % 16;
    }
  }

  /** Distinct digests have distinct texts. */
  lemma HexInjective(a: seq<byte>, b: seq<byte>)
    requires Hex(a) == Hex(b)
    ensures a == b
  {
    UnhexHex(a);
    UnhexHex(b);
  }

  /** Two characters per byte, high nibble first. */
  lemma {:induction false} HexAt(d: seq<byte>, i: nat)
    requires i < |d|
    ensures Hex(d)[2 * i] == HexDigit(d[i] / 16)
    ensures Hex(d)[2 * i + 1] == HexDigit(d[i] % 16)
  {
    if i > 0 {
      HexAt(d[1..], i - 1);
    }
  }

  lemma {:induction false} HexAppend(a: seq<byte>, b: seq<byte>)
    ensures Hex(a + b) == Hex(a) + Hex(b)
  {
    if a != [] {
      assert (a + b)[0] == a[0];
      assert (a + b)[1..] == a[1..] + b;
      HexAppend(a[1..], b);
    } else {
      assert a + b == b;
    }
  }

  /** The C string held in a buffer: the bytes before the first NUL. */
  function CStr(buf: seq<byte>): (s: seq<byte>)
    ensures s <= buf
    ensures forall i :: 0 <= i < |s| ==> s[i] != 0
    ensures |s| < |buf| ==> buf[|s|] == 0
  {
    if buf == [] || buf[0] == 0 then [] else [buf[0]] + CStr(buf[1..])
  }

  /** A NUL-free text followed by its terminator reads back as that text. */
  lemma {:induction false} CStrTerminated(s: seq<byte>)
    requires forall i :: 0 <= i < |s| ==> s[i] != 0
    ensures CStr(s + [0]) == s
  {
    if s != [] {
      assert (s + [0])[0] == s[0];
      assert (s + [0])[1..] == s[1..] + [0];
      CStrTerminated(s[1..]);
    }
  }

  /** What `snprintf(buf, size, "%s%s", a, b)` leaves in `buf` as a C string:
      the concatenation, cut to the `size - 1` bytes that fit before the NUL. */
  function Format(size: nat, a: seq<byte>, b: seq<byte>): (s: seq<byte>)
    requires size > 0
    ensures s <= a + b
    ensures |s| == if |a + b| < size then |a + b| else size - 1
  {
    if |a + b| < size then a + b else (a + b)[..size - 1]
  }

  /** `sha256_hex`: hashes `data` and writes each digest byte with `%02x` into `outHex`
      (every `sprintf` also writes a NUL after its two characters), then terminates the text
      at index 64. */
  method Sha256Hex(sha256: Sha256, data: seq<byte>, outHex: array<byte>)
    requires outHex.Length == HASH_HEX_LEN
    modifies outHex
    ensures outHex[..] == Hex(sha256(data)) + [0]
  {
    var hash := sha256(data);
    for i := 0 to DIGEST_LEN
      invariant outHex[..2 * i] == Hex(hash[..i])
    {
      outHex[2 * i] := HexDigit(hash[i] / 16);
      outHex[2 * i + 1] := HexDigit(hash[i] % 16);
      outHex[2 * i + 2] := 0;
      assert hash[..i + 1] == hash[..i] + [hash[i]];
      HexAppend(hash[..i], [hash[i]]);
    }
    outHex[2 * DIGEST_LEN] := 0;
    assert hash[..DIGEST_LEN] == hash;
    assert outHex[..] == outHex[..2 * DIGEST_LEN] + [outHex[2 * DIGEST_LEN]];
  }
}
