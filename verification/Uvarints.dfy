/** The variable-length integers that caveat ids and caveat payloads are built with. */
module Uvarints {
  import opened Basics

  const UINT64 := 0x1_0000_0000_0000_0000
  const MAX_VARINT_LEN64 := 10

  /** binary.PutUvarint: seven bits a byte, the least significant first. */
  function Uvarint(n: nat): (r: bytes)
    ensures r != []
  {
    if n < 128 then [n] else [n % 128 + 128] + Uvarint(n / 128)
  }

  /** The first value of two bytes, one of each more, and the least significant first. */
  lemma UvarintVectors()
    ensures Uvarint(0) == [0] && Uvarint(127) == [127] && Uvarint(128) == [128, 1] && Uvarint(300) == [172, 2]
    ensures Uvarint(16384) == [128, 128, 1]
  {
    assert Uvarint(128) == [128] + Uvarint(1);
  }

  /** binary.Uvarint at the i'th byte: the value and the number of bytes read. None stands for the results
      n <= 0: the data ends too early or the value overflows 64 bits. */
  function ReadUvarint(data: bytes, i: nat): (r: Option<(nat, nat)>)
    ensures r.Some? ==> 1 <= r.value.1 <= |data|
    decreases |data|
  {
    if data == [] || i >= MAX_VARINT_LEN64 then None
    else if data[0] < 128 then
      if i == MAX_VARINT_LEN64 - 1 && data[0] > 1 then None else Some((data[0], 1))
    else
      match ReadUvarint(data[1..], i + 1)
      case None => None
      case Some((v, k)) => Some((data[0] - 128 + 128 * v, k + 1))
  }

  /** uvarintLen counts the bytes that PutUvarint writes. */
  method UvarintLen(n: nat) returns (len: nat)
    ensures len == |Uvarint(n)|
  {
    len := 1;
    var m: nat := n / 128;
    while m > 0
      invariant if m == 0 then len == |Uvarint(n)| else len + |Uvarint(m)| == |Uvarint(n)|
    {
      len := len + 1;
      m := m / 128;
    }
  }

  method AppendUvarint(data: bytes, n: nat) returns (r: bytes)
    ensures r == data + Uvarint(n)
  {
    r := data;
    var m: nat := n;
    while m >= 128
      invariant r + Uvarint(m) == data + Uvarint(n)
    {
      r := r + [m % 128 + 128];
      m := m / 128;
    }
    r := r + [m];
  }

  lemma {:induction false} UvarintInjective(a: nat, b: nat)
    requires Uvarint(a) == Uvarint(b)
    ensures a == b
  {
    assert Uvarint(a)[0] == Uvarint(b)[0];
    if a >= 128 && b >= 128 {
      assert Uvarint(a)[1..] == Uvarint(b)[1..];
      UvarintInjective(a / 128, b / 128);
    }
  }

  /** The values that fit in the bits left after i bytes. */
  function Limit(i: nat): nat
    requires i < MAX_VARINT_LEN64
    decreases MAX_VARINT_LEN64 - i
  {
    if i == MAX_VARINT_LEN64 - 1 then 2 else 128 * Limit(i + 1)
  }

  lemma {:induction false} ReadWritten(n: nat, rest: bytes, i: nat)
    requires i < MAX_VARINT_LEN64 && n < Limit(i)
    ensures ReadUvarint(Uvarint(n) + rest, i) == Some((n, |Uvarint(n)|))
    decreases n
  {
    var data := Uvarint(n) + rest;
    assert data[0] == Uvarint(n)[0];
    if n >= 128 {
      ReadWritten(n / 128, rest, i + 1);
      assert data[1..] == Uvarint(n / 128) + rest;
    }
  }

  lemma LimitIsUint64()
    ensures Limit(0) == UINT64
  {
    assert Limit(9) == 2 && Limit(8) == 0x100 && Limit(7) == 0x8000 && Limit(6) == 0x40_0000 && Limit(5) == 0x2000_0000;
    assert Limit(4) == 0x10_0000_0000 && Limit(3) == 0x800_0000_0000 && Limit(2) == 0x4_0000_0000_0000;
  }

  /** Every 64-bit value that is written is read back, whatever follows it. */
  lemma UvarintRoundTrip(n: nat, rest: bytes)
    requires n < UINT64
    ensures ReadUvarint(Uvarint(n) + rest, 0) == Some((n, |Uvarint(n)|))
  {
    LimitIsUint64();
    ReadWritten(n, rest, 0);
  }

  lemma {:induction false} ReadFits(data: bytes, i: nat)
    requires i < MAX_VARINT_LEN64 && ReadUvarint(data, i).Some?
    ensures ReadUvarint(data, i).value.0 < Limit(i)
    decreases |data|
  {
    if data[0] >= 128 {
      ReadFits(data[1..], i + 1);
    } else {
      LimitAbove(i);
    }
  }

  lemma LimitAbove(i: nat)
    requires i < MAX_VARINT_LEN64
    ensures Limit(i) >= 2 && (i < MAX_VARINT_LEN64 - 1 ==> Limit(i) >= 256)
    decreases MAX_VARINT_LEN64 - i
  {
    if i < MAX_VARINT_LEN64 - 1 {
      LimitAbove(i + 1);
    }
  }

  lemma {:induction false} ShortUvarint(n: nat, i: nat)
    requires i < MAX_VARINT_LEN64 && n < Limit(i)
    ensures |Uvarint(n)| <= MAX_VARINT_LEN64 - i
    decreases n
  {
    if n >= 128 {
      ShortUvarint(n / 128, i + 1);
    }
  }

  /** What is read fits in 64 bits. */
  lemma ReadIsUint64(data: bytes)
    requires ReadUvarint(data, 0).Some?
    ensures ReadUvarint(data, 0).value.0 < UINT64
  {
    LimitIsUint64();
    ReadFits(data, 0);
  }
}
