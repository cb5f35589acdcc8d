/** Bytes, 16-bit words and IPv4 addresses in network byte order. */
module Net {
  import opened Bits

  type byte = x: int | 0 <= x < 0x100
  type u16 = x: int | 0 <= x < 0x1_0000
  type u32 = x: int | 0 <= x < 0x1_0000_0000

  datatype Option<+T> = None | Some(value: T)

  datatype Ipv4Addr = Ipv4Addr(o0: byte, o1: byte, o2: byte, o3: byte) {

    function Octets(): seq<byte> {
      [o0, o1, o2, o3]
    }

    /** The address as a big-endian 32-bit number. */
    function U32(): u32 {
      0x100_0000 * (o0 as int) + 0x1_0000 * (o1 as int) + 0x100 * (o2 as int) + o3
    }

    /** 224.0.0.0/4, section 4 of RFC 1112. */
    predicate IsMulticast() {
      224 <= o0 <= 239
    }
  }

  const LIMITED_BROADCAST := Ipv4Addr(255, 255, 255, 255)
  const UNSPECIFIED := Ipv4Addr(0, 0, 0, 0)

  lemma U32Injective(a: Ipv4Addr, b: Ipv4Addr)
    requires a.U32() == b.U32()
    ensures a == b
  {
    assert 0x100_0000 * (a.o0 - b.o0) + 0x1_0000 * (a.o1 - b.o1) + 0x100 * (a.o2 - b.o2) + (a.o3 - b.o3) == 0;
    assert a.o0 == b.o0;
    assert a.o1 == b.o1;
    assert a.o2 == b.o2;
  }

  function HighNibble(b: byte): (r: byte)
    ensures r == b / 16 < 16
  {
    b / Pow2(4)
  }

  function LowNibble(b: byte): (r: byte)
    ensures r == b % 16
  {
    AndLowMask(b, 4);
    BitAnd(b, 0x0f)
  }

  function U16At(p: seq<byte>, off: nat): (v: u16)
    requires off + 2 <= |p|
  {
    0x100 * (p[off] as int) + p[off + 1]
  }

  function AddrAt(p: seq<byte>, off: nat): Ipv4Addr
    requires off + 4 <= |p|
  {
    Ipv4Addr(p[off], p[off + 1], p[off + 2], p[off + 3])
  }

  function PutU16(p: seq<byte>, off: nat, v: u16): (q: seq<byte>)
    requires off + 2 <= |p|
    ensures |q| == |p| && U16At(q, off) == v
    ensures forall i | 0 <= i < |p| && i != off && i != off + 1 :: q[i] == p[i]
  {
    p[off := v / 0x100][off + 1 := v % 0x100]
  }

  function PutAddr(p: seq<byte>, off: nat, a: Ipv4Addr): (q: seq<byte>)
    requires off + 4 <= |p|
    ensures |q| == |p| && AddrAt(q, off) == a
    ensures forall i | 0 <= i < |p| && !(off <= i < off + 4) :: q[i] == p[i]
  {
    p[off := a.o0][off + 1 := a.o1][off + 2 := a.o2][off + 3 := a.o3]
  }
}
