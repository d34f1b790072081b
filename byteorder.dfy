/** Byte-order helpers of byteswap.h.

    A value of a fixed-width integer type is represented here by the bytes it
    occupies in memory, lowest address first; `sizeof(T)` is the length of that
    sequence. The host's byte order, which the source reads from
    `std::endian::native`, is a parameter. */
module ByteOrder {

  type Byte = b: int | 0 <= b < 0x100

  /** Byte order of the host. */
  datatype Endian = Little | Big

  /** The value `byteswap` returns: the input's bytes in reverse order. */
  function Swapped(n: seq<Byte>): (m: seq<Byte>)
    ensures |m| == |n|
  {
    if |n| == 0 then [] else [n[|n| - 1]] + Swapped(n[..|n| - 1])
  }

  /** Byte `i` of the swapped value is byte `sizeof(T) - 1 - i` of the input. */
  lemma {:induction false} SwappedAt(n: seq<Byte>, i: int)
    requires 0 <= i < |n|
    ensures Swapped(n)[i] == n[|n| - 1 - i]
  {
    if i > 0 {
      var init := n[..|n| - 1];
      SwappedAt(init, i - 1);
      assert Swapped(n)[i] == Swapped(init)[i - 1];
    }
  }

  /** `byteswap` fills the result byte by byte from the opposite end of the input. */
  method ByteSwap(n: seq<Byte>) returns (m: seq<Byte>)
    ensures |m| == |n|
    ensures forall i :: 0 <= i < |n| ==> m[i] == n[|n| - 1 - i]
    ensures m == Swapped(n)
  {
    var bytes := new Byte[|n|];
    for i := 0 to |n|
      invariant forall k :: 0 <= k < i ==> bytes[k] == n[|n| - 1 - k]
    {
      bytes[i] := n[|n| - 1 - i];
    }
    m := bytes[..];
    forall i | 0 <= i < |n|
      ensures m[i] == Swapped(n)[i]
    {
      SwappedAt(n, i);
    }
  }

  /** Swapping twice gives the value back. */
  lemma SwappedInvolution(n: seq<Byte>)
    ensures Swapped(Swapped(n)) == n
  {
    var m := Swapped(n);
    forall i | 0 <= i < |n|
      ensures Swapped(m)[i] == n[i]
    {
      SwappedAt(m, i);
      SwappedAt(n, |n| - 1 - i);
    }
  }

  /** On a one-byte type `byteswap` changes nothing. */
  lemma SwappedSingleByte(n: seq<Byte>)
    requires |n| == 1
    ensures Swapped(n) == n
  {
    SwappedAt(n, 0);
  }

  /** Every byte of the swapped value comes from the opposite end of the input. */
  lemma SwappedEvery(n: seq<Byte>)
    ensures forall i :: 0 <= i < |n| ==> Swapped(n)[i] == n[|n| - 1 - i]
  {
    forall i | 0 <= i < |n|
      ensures Swapped(n)[i] == n[|n| - 1 - i]
    {
      SwappedAt(n, i);
    }
  }

  /** `convert_be`: the identity on a big-endian host, `byteswap` otherwise. */
  function ConvertBe(host: Endian, val: seq<Byte>): (r: seq<Byte>)
    ensures |r| == |val|
    ensures forall i :: 0 <= i < |val| ==> r[i] == if host == Big then val[i] else val[|val| - 1 - i]
  {
    SwappedEvery(val);
    if host == Big then val else Swapped(val)
  }

  /** `convert_le`: the identity on a little-endian host, `byteswap` otherwise. */
  function ConvertLe(host: Endian, val: seq<Byte>): (r: seq<Byte>)
    ensures |r| == |val|
    ensures forall i :: 0 <= i < |val| ==> r[i] == if host == Little then val[i] else val[|val| - 1 - i]
  {
    SwappedEvery(val);
    if host == Little then val else Swapped(val)
  }

  /** `convert_be` converts both to and from big-endian order. */
  lemma ConvertBeInvolution(host: Endian, val: seq<Byte>)
    ensures ConvertBe(host, ConvertBe(host, val)) == val
    ensures |ConvertBe(host, val)| == |val|
    ensures host == Big ==> ConvertBe(host, val) == val
  {
    if host == Little {
      SwappedInvolution(val);
    }
  }

  /** `convert_le` converts both to and from little-endian order. */
  lemma ConvertLeInvolution(host: Endian, val: seq<Byte>)
    ensures ConvertLe(host, ConvertLe(host, val)) == val
    ensures |ConvertLe(host, val)| == |val|
    ensures host == Little ==> ConvertLe(host, val) == val
  {
    if host == Big {
      SwappedInvolution(val);
    }
  }

  /** The `width` least significant base-256 digits of `x`, least significant first. */
  function LittleEndian(x: nat, width: nat): (r: seq<Byte>)
    ensures |r| == width
  {
    if width == 0 then [] else [x % 0x100] + LittleEndian(x / 0x100, width - 1)
  }

  /** The `width` least significant base-256 digits of `x`, most significant first. */
  function BigEndian(x: nat, width: nat): (r: seq<Byte>)
    ensures |r| == width
  {
    if width == 0 then [] else BigEndian(x / 0x100, width - 1) + [x % 0x100]
  }

  /** The bytes an unsigned integer of `width` bytes occupies in the host's memory. */
  function InMemory(host: Endian, x: nat, width: nat): seq<Byte>
  {
    if host == Little then LittleEndian(x, width) else BigEndian(x, width)
  }

  /** Reversing the little-endian digits gives the big-endian digits. */
  lemma {:induction false} SwappedLittleEndian(x: nat, width: nat)
    ensures Swapped(LittleEndian(x, width)) == BigEndian(x, width)
  {
    if width > 0 {
      var rest := LittleEndian(x / 0x100, width - 1);
      SwappedLittleEndian(x / 0x100, width - 1);
      var n := [x % 0x100] + rest;
      assert LittleEndian(x, width) == n;
      forall i | 0 <= i < width
        ensures Swapped(n)[i] == (Swapped(rest) + [x % 0x100])[i]
      {
        SwappedAt(n, i);
        if i < width - 1 {
          SwappedAt(rest, i);
        }
      }
    }
  }

  /** Whatever the host, the value `convert_le` returns is laid out in memory
      as the little-endian digits of the original value. */
  lemma ConvertLeWritesLittleEndian(host: Endian, x: nat, width: nat)
    ensures ConvertLe(host, InMemory(host, x, width)) == LittleEndian(x, width)
  {
    if host == Big {
      SwappedLittleEndian(x, width);
      SwappedInvolution(LittleEndian(x, width));
    }
  }

  /** Whatever the host, the value `convert_be` returns is laid out in memory
      as the big-endian digits of the original value. */
  lemma ConvertBeWritesBigEndian(host: Endian, x: nat, width: nat)
    ensures ConvertBe(host, InMemory(host, x, width)) == BigEndian(x, width)
  {
    if host == Little {
      SwappedLittleEndian(x, width);
    }
  }
}
