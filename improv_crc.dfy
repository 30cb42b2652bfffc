/** The CRC-8 that the Improv test script appends to every frame it sends:
    generator polynomial 0x31, register initialised to 0, bits processed most
    significant first, no reflection and no final XOR.

    The specification is a left fold of `UpdateByte` over the bytes
    (`CrcFrom`, `Crc`); `CalculateCrc` is the script's nested loop over a
    16-bit register that is masked back to 8 bits after every shift, and is
    proved to compute `Crc`. */
module ImprovCrc {

  /** A Python `bytes` element: an integer in 0..255. */
  type byte = bv8

  /** The generator polynomial x^8 + x^5 + x^4 + 1 without its top term. */
  const POLY: byte := 0x31

  /** One pass of the inner loop: shift the register left by one bit and,
      when the bit shifted out was set, fold in the polynomial. Because the
      polynomial has its constant term, the step never sends a nonzero
      register to zero. */
  function BitStep(crc: byte): (r: byte)
    ensures r == 0 <==> crc == 0
  {
    if crc & 0x80 != 0 then (crc << 1) ^ POLY else crc << 1
  }

  /** `n` passes of the inner loop. */
  function Shifts(crc: byte, n: nat): (r: byte)
    ensures r == 0 <==> crc == 0
    decreases n
  {
    if n == 0 then crc else Shifts(BitStep(crc), n - 1)
  }

  /** One pass of the outer loop: XOR the byte into the register, then
      eight bit steps. The register ends at zero exactly when the byte fed
      equals the register it was fed into. */
  function UpdateByte(crc: byte, b: byte): (r: byte)
    ensures r == 0 <==> b == crc
  {
    Shifts(crc ^ b, 8)
  }

  /** The register after feeding the bytes of `s`, in order, into a
      register holding `crc`. Feeding no bytes changes nothing, and feeding
      only zero bytes neither clears a nonzero register nor sets a zero one. */
  function CrcFrom(crc: byte, s: seq<byte>): (r: byte)
    ensures s == [] ==> r == crc
    ensures (forall i | 0 <= i < |s| :: s[i] == 0) ==> (r == 0 <==> crc == 0)
    decreases |s|
  {
    if s == [] then crc else CrcFrom(UpdateByte(crc, s[0]), s[1..])
  }

  /** The checksum of `s`: the fold started from the initial value 0. */
  function Crc(s: seq<byte>): (r: byte)
    ensures s == [] ==> r == 0
  {
    CrcFrom(0, s)
  }

  /** Feeding `a ++ b` is feeding `a`, then continuing from that register
      over `b`. */
  lemma {:induction false} CrcFromAppend(crc: byte, a: seq<byte>, b: seq<byte>)
    ensures CrcFrom(crc, a + b) == CrcFrom(CrcFrom(crc, a), b)
    decreases |a|
  {
    if a == [] {
      assert a + b == b;
    } else {
      assert (a + b)[0] == a[0];
      assert (a + b)[1..] == a[1..] + b;
      CrcFromAppend(UpdateByte(crc, a[0]), a[1..], b);
    }
  }

  /** The checksum of a concatenation continues the checksum of its first
      part over the second. */
  lemma CrcAppend(a: seq<byte>, b: seq<byte>)
    ensures Crc(a + b) == CrcFrom(Crc(a), b)
  {
    CrcFromAppend(0, a, b);
  }

  /** Appending one byte performs exactly one outer-loop pass. */
  lemma CrcAppendByte(a: seq<byte>, x: byte)
    ensures Crc(a + [x]) == UpdateByte(Crc(a), x)
  {
    CrcAppend(a, [x]);
    assert [x][1..] == [];
  }

  /** The receiver's check: the checksum over a whole message, its last
      byte included, is zero exactly when that last byte is the checksum of
      the bytes before it. This holds because the register starts at 0 and
      no final XOR is applied. */
  lemma CrcResidue(p: seq<byte>)
    requires |p| >= 1
    ensures Crc(p) == 0 <==> p[|p| - 1] == Crc(p[..|p| - 1])
  {
    assert p == p[..|p| - 1] + [p[|p| - 1]];
    CrcAppendByte(p[..|p| - 1], p[|p| - 1]);
  }

  /** A bit step loses no information: distinct registers stay distinct. */
  lemma BitStepInjective(u: byte, v: byte)
    requires BitStep(u) == BitStep(v)
    ensures u == v
  {
  }

  /** Nor do `n` bit steps. */
  lemma {:induction false} ShiftsInjective(u: byte, v: byte, n: nat)
    requires Shifts(u, n) == Shifts(v, n)
    ensures u == v
    decreases n
  {
    if n > 0 {
      ShiftsInjective(BitStep(u), BitStep(v), n - 1);
      BitStepInjective(u, v);
    }
  }

  /** Feeding the same bytes into two different registers leaves them
      different. */
  lemma {:induction false} CrcFromInjective(c1: byte, c2: byte, s: seq<byte>)
    requires CrcFrom(c1, s) == CrcFrom(c2, s)
    ensures c1 == c2
    decreases |s|
  {
    if s != [] {
      CrcFromInjective(UpdateByte(c1, s[0]), UpdateByte(c2, s[0]), s[1..]);
      ShiftsInjective(c1 ^ s[0], c2 ^ s[0], 8);
    }
  }

  /** Changing any one byte of a message changes its checksum. */
  lemma SingleByteChangeDetected(a: seq<byte>, x: byte, y: byte, b: seq<byte>)
    requires x != y
    ensures Crc(a + [x] + b) != Crc(a + [y] + b)
  {
    CrcAppend(a + [x], b);
    CrcAppend(a + [y], b);
    CrcAppendByte(a, x);
    CrcAppendByte(a, y);
    if Crc(a + [x] + b) == Crc(a + [y] + b) {
      CrcFromInjective(UpdateByte(Crc(a), x), UpdateByte(Crc(a), y), b);
      ShiftsInjective(Crc(a) ^ x, Crc(a) ^ y, 8);
    }
  }

  /** `calculate_crc`: the script's loops over a register wider than a
      byte, masked to its low eight bits after every shift. */
  method CalculateCrc(data: seq<byte>) returns (r: byte)
    ensures r == Crc(data)
  {
    var crc: bv16 := 0;
    var i := 0;
    while i < |data|
      invariant 0 <= i <= |data|
      invariant crc <= 0xFF && crc as byte == Crc(data[..i])
    {
      crc := crc ^ data[i] as bv16;
      ghost var fed := crc as byte;
      var k := 0;
      while k < 8
        invariant 0 <= k <= 8
        invariant crc <= 0xFF && Shifts(crc as byte, 8 - k) == Shifts(fed, 8)
      {
        if crc & 0x80 != 0 {
          crc := (crc << 1) ^ 0x31;
        } else {
          crc := crc << 1;
        }
        crc := crc & 0xFF;
        k := k + 1;
      }
      CrcAppendByte(data[..i], data[i]);
      assert data[..i + 1] == data[..i] + [data[i]];
      i := i + 1;
    }
    assert data[..i] == data;
    r := crc as byte;
  }
}
