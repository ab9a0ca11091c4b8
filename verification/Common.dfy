/** Value types shared by every component model. */
module Common {
  datatype Option<+T> = None | Some(value: T)

  datatype Result<+T> = Ok(value: T) | Err(error: string)

  type byte = x: int | 0 <= x < 256

  type u32 = x: int | 0 <= x < 0x1_0000_0000

  const U64_MAX := 0xFFFF_FFFF_FFFF_FFFF

  type u64 = x: int | 0 <= x <= 0xFFFF_FFFF_FFFF_FFFF

  /** `saturating_add` on `u64`. */
  function SatAdd(a: u64, b: u64): u64 {
    if a + b > U64_MAX then U64_MAX else a + b
  }

  function Min(a: int, b: int): int { if a < b then a else b }

  function Max(a: int, b: int): int { if a < b then b else a }

  lemma Assoc<T>(a: seq<T>, b: seq<T>, c: seq<T>)
    ensures a + (b + c) == (a + b) + c
  {
  }
}

/** Big-endian integers of fixed width, as the two wire formats store lengths and checksums. */
module BigEndian {
  import opened Common

  function Pow256(n: nat): (p: nat)
    ensures p >= 1
  {
    if n == 0 then 1 else 256 * Pow256(n - 1)
  }

  function Encode(value: nat, width: nat): (s: seq<byte>)
    ensures |s| == width
  {
    if width == 0 then [] else Encode(value / 256, width - 1) + [value % 256]
  }

  function Decode(s: seq<byte>): nat {
    if s == [] then 0 else Decode(s[..|s| - 1]) * 256 + s[|s| - 1]
  }

  lemma {:induction false} RoundTrip(value: nat, width: nat)
    requires value < Pow256(width)
    ensures Decode(Encode(value, width)) == value
  {
    if width > 0 {
      RoundTrip(value / 256, width - 1);
      var s := Encode(value, width);
      assert s[..|s| - 1] == Encode(value / 256, width - 1);
    }
  }

  lemma Widths()
    ensures Pow256(2) == 0x1_0000
    ensures Pow256(4) == 0x1_0000_0000
    ensures Pow256(8) == 0x1_0000_0000_0000_0000
  {
  }
}
