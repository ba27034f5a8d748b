/** The reference renderer's video memory (vendor/emu/refsw/pvr_mem.cpp):
    a byte array addressed through the 64-bit bus interleave, where the two
    4 MiB banks alternate every 32 bits. */
module PvrMem {

  /** A 32-bit bus address. */
  type u32 = x: nat | x < 0x1_0000_0000

  /** `VRAM_SIZE`, the 8 MiB of the console's video memory. */
  const VramSize: nat := 0x80_0000
  /** `VRAM_BANK_BIT`: the address bit that selects the bank. */
  const BankBit: nat := 0x40_0000

  /** The masks `pvr_map32` builds from `VRAM_MASK` and `VRAM_BANK_BIT`: at
      8 MiB the bits kept in place are bits 0-1 only and the bits moved up
      by one place are bits 2-21. */
  lemma MaskConstants()
    ensures var vramMask: bv32 := 0x7F_FFFF;
      var bank: bv32 := 0x40_0000;
      (vramMask - (bank * 2 - 1)) | 3 == 3 && (bank - 1) & !3 == 0x3F_FFFC
  {
  }

  /** `pvr_map32`: the byte offset in the interleaved array of a bus
      address. With the masks of `MaskConstants` the three terms are
      `offset32 & static_bits`, `(offset32 & offset_bits) * 2` and
      `bank * 4`; they occupy disjoint bits, so `|` adds them. */
  function Map32(offset32: u32): (rv: nat)
    ensures rv < VramSize
  {
    var bank := (offset32 / BankBit) % 2;
    offset32 % 4 + (offset32 % BankBit - offset32 % 4) * 2 + bank * 4
  }

  /** The bus address of a byte offset: the inverse interleave. */
  function Unmap(rv: nat): (a: nat)
    ensures a < VramSize
  {
    rv % 4 + ((rv / 8) % 0x10_0000) * 4 + ((rv / 4) % 2) * BankBit
  }

  /** An address split into its fields: bits 0-1, bits 2-21, the bank bit
      22 and the bits above. */
  lemma Fields(a: nat) returns (low: nat, word: nat, bank: nat, high: nat)
    ensures low < 4 && word < 0x10_0000 && bank < 2
    ensures a == low + word * 4 + bank * BankBit + high * VramSize
    ensures a % 4 == low && a % BankBit == low + word * 4 && (a / BankBit) % 2 == bank
    ensures a % VramSize == low + word * 4 + bank * BankBit
  {
    low, high := a % 4, a / VramSize;
    var r := a % VramSize;
    bank := r / BankBit;
    word := (r % BankBit) / 4;
    assert a == high * VramSize + r;
    assert r == bank * BankBit + word * 4 + low;
  }

  lemma {:induction false} AtLeastOnce(k: nat, d: nat)
    requires k >= 1
    ensures k * d >= d
  {
    if k > 1 {
      AtLeastOnce(k - 1, d);
      assert k * d == (k - 1) * d + d;
    }
  }

  /** Division is unique: a quotient and a remainder below the divisor
      are the ones `/` and `%` give. */
  lemma DivMod(x: nat, d: nat, q: nat, r: nat)
    requires 0 <= r < d && x == q * d + r
    ensures x / d == q && x % d == r
  {
    var q0, r0 := x / d, x % d;
    assert x == q0 * d + r0;
    if q > q0 {
      assert (q - q0) * d == r0 - r;
      AtLeastOnce(q - q0, d);
    } else if q < q0 {
      assert (q0 - q) * d == r - r0;
      AtLeastOnce(q0 - q, d);
    }
  }

  /** Where each address field goes: bits 0-1 stay, bits 2-21 move up by one
      place and the bank bit lands in bit 2; bits 23 and above are dropped. */
  lemma MapFields(a: u32)
    ensures Map32(a) % 4 == a % 4
    ensures (Map32(a) / 4) % 2 == (a / BankBit) % 2
    ensures Map32(a) / 8 == (a / 4) % 0x10_0000
  {
    var low, word, bank, high := Fields(a);
    var m := Map32(a);
    assert m == low + bank * 4 + word * 8;
    DivMod(m, 4, bank + 2 * word, low);
    DivMod(m / 4, 2, word, bank);
    DivMod(m, 8, word, low + bank * 4);
    DivMod(a, 4, word + bank * 0x10_0000 + high * 0x20_0000, low);
    DivMod(a / 4, 0x10_0000, bank + 2 * high, word);
  }

  /** Every address comes back from its offset, modulo the 8 MiB. */
  lemma UnmapMap(a: u32)
    ensures Unmap(Map32(a)) == a % VramSize
  {
    var low, word, bank, high := Fields(a);
    MapFields(a);
    DivMod(a, 4, word + bank * 0x10_0000 + high * 0x20_0000, low);
    DivMod(a / 4, 0x10_0000, bank + 2 * high, word);
    DivMod(word, 0x10_0000, 0, word);
  }

  /** Every offset is the image of its bus address: `pvr_map32` is a
      permutation of the 8 MiB. */
  lemma MapUnmap(rv: nat)
    requires rv < VramSize
    ensures Map32(Unmap(rv)) == rv
  {
    var l, q4 := rv % 4, rv / 4;
    var b, w := q4 % 2, q4 / 2;
    assert rv == w * 8 + (b * 4 + l);
    DivMod(rv, 8, w, b * 4 + l);
    DivMod(w, 0x10_0000, 0, w);
    var u := Unmap(rv);
    assert u == l + w * 4 + b * BankBit;
    DivMod(u, 4, w + b * 0x10_0000, l);
    DivMod(u, BankBit, b, l + w * 4);
    DivMod(u / BankBit, 2, 0, b);
  }

  /** Two addresses share an offset exactly when they agree modulo 8 MiB:
      the memory repeats every 8 MiB and is otherwise never aliased. */
  lemma MapInjective(a: u32, b: u32)
    ensures Map32(a) == Map32(b) <==> a % VramSize == b % VramSize
  {
    UnmapMap(a);
    UnmapMap(b);
    MapUnmap(Map32(a));
    MapUnmap(Map32(b));
  }

  /** An aligned address maps to an equally aligned offset, so the bytes
      of the access stay inside one interleaved word. */
  lemma MapAligned(a: u32)
    ensures a % 4 == 0 ==> Map32(a) % 4 == 0 && Map32(a) + 4 <= VramSize
    ensures a % 2 == 0 ==> Map32(a) % 2 == 0 && Map32(a) + 2 <= VramSize
  {
    var low, word, bank, high := Fields(a);
    var m := Map32(a);
    assert m == low + bank * 4 + word * 8;
    var q := word + bank * 0x10_0000 + high * 0x20_0000;
    DivMod(a, 2, 2 * q + low / 2, low % 2);
    if a % 2 == 0 {
      DivMod(m, 2, low / 2 + 2 * bank + 4 * word, 0);
    }
    if a % 4 == 0 {
      DivMod(m, 4, bank + 2 * word, 0);
    }
  }

  // ---------------------------------------------------------------------
  // Little-endian access to the byte array, as the host's `*(u32*)` does.

  function Word16At(mem: seq<bv8>, i: nat): bv16
    requires i + 2 <= |mem|
  {
    (mem[i] as bv16) | ((mem[i + 1] as bv16) << 8)
  }

  function Word32At(mem: seq<bv8>, i: nat): bv32
    requires i + 4 <= |mem|
  {
    (mem[i] as bv32) | ((mem[i + 1] as bv32) << 8) | ((mem[i + 2] as bv32) << 16) | ((mem[i + 3] as bv32) << 24)
  }

  function Put16At(mem: seq<bv8>, i: nat, v: bv16): (r: seq<bv8>)
    requires i + 2 <= |mem|
    ensures |r| == |mem|
  {
    mem[i := (v & 0xFF) as bv8][i + 1 := (v >> 8) as bv8]
  }

  function Put32At(mem: seq<bv8>, i: nat, v: bv32): (r: seq<bv8>)
    requires i + 4 <= |mem|
    ensures |r| == |mem|
  {
    mem[i := (v & 0xFF) as bv8][i + 1 := ((v >> 8) & 0xFF) as bv8]
       [i + 2 := ((v >> 16) & 0xFF) as bv8][i + 3 := (v >> 24) as bv8]
  }

  lemma Join16(v: bv16)
    ensures ((v & 0xFF) as bv8 as bv16) | (((v >> 8) as bv8 as bv16) << 8) == v
  {
  }

  lemma Join32(v: bv32)
    ensures ((v & 0xFF) as bv8 as bv32) | ((((v >> 8) & 0xFF) as bv8 as bv32) << 8)
          | ((((v >> 16) & 0xFF) as bv8 as bv32) << 16) | (((v >> 24) as bv8 as bv32) << 24) == v
  {
  }

  /** The 16-bit value at a bus address. */
  function Load16(mem: seq<bv8>, addr: u32): bv16
    requires |mem| == VramSize && addr % 2 == 0
  {
    MapAligned(addr);
    Word16At(mem, Map32(addr))
  }

  /** The 32-bit value at a bus address. */
  function Load32(mem: seq<bv8>, addr: u32): bv32
    requires |mem| == VramSize && addr % 4 == 0
  {
    MapAligned(addr);
    Word32At(mem, Map32(addr))
  }

  function Store16(mem: seq<bv8>, addr: u32, v: bv16): (r: seq<bv8>)
    requires |mem| == VramSize && addr % 2 == 0
    ensures |r| == |mem|
  {
    MapAligned(addr);
    Put16At(mem, Map32(addr), v)
  }

  function Store32(mem: seq<bv8>, addr: u32, v: bv32): (r: seq<bv8>)
    requires |mem| == VramSize && addr % 4 == 0
    ensures |r| == |mem|
  {
    MapAligned(addr);
    Put32At(mem, Map32(addr), v)
  }

  /** A 16-bit write followed by a read of the same address returns the
      value written. */
  lemma LoadStore16(mem: seq<bv8>, addr: u32, v: bv16)
    requires |mem| == VramSize && addr % 2 == 0
    ensures Load16(Store16(mem, addr, v), addr) == v
  {
    MapAligned(addr);
    Join16(v);
  }

  /** A 32-bit write followed by a read of the same address returns the
      value written. */
  lemma LoadStore32(mem: seq<bv8>, addr: u32, v: bv32)
    requires |mem| == VramSize && addr % 4 == 0
    ensures Load32(Store32(mem, addr, v), addr) == v
  {
    MapAligned(addr);
    Join32(v);
  }

  /** Two aligned accesses of `width` bytes at different addresses (modulo
      the 8 MiB repeat) touch disjoint bytes. */
  lemma Apart(a: u32, b: u32, width: nat)
    requires width == 2 || width == 4
    requires a % width == 0 && b % width == 0 && a % VramSize != b % VramSize
    ensures Map32(a) + width <= Map32(b) || Map32(b) + width <= Map32(a)
  {
    MapInjective(a, b);
    MapAligned(a);
    MapAligned(b);
    var ka, kb := Map32(a) / width, Map32(b) / width;
    assert Map32(a) == ka * width && Map32(b) == kb * width;
    assert ka != kb;
    if ka < kb {
      assert (kb - ka) * width >= width;
    } else {
      assert (ka - kb) * width >= width;
    }
  }

  /** A 32-bit write leaves the word at every other address as it was. */
  lemma LoadStoreOther32(mem: seq<bv8>, a: u32, b: u32, v: bv32)
    requires |mem| == VramSize && a % 4 == 0 && b % 4 == 0 && a % VramSize != b % VramSize
    ensures Load32(Store32(mem, a, v), b) == Load32(mem, b)
  {
    Apart(a, b, 4);
    MapAligned(a);
    MapAligned(b);
    var m := Map32(b);
    var s := Store32(mem, a, v);
    assert s[m] == mem[m] && s[m + 1] == mem[m + 1] && s[m + 2] == mem[m + 2] && s[m + 3] == mem[m + 3];
  }

  /** A 16-bit write leaves the half-word at every other address as it was. */
  lemma LoadStoreOther16(mem: seq<bv8>, a: u32, b: u32, v: bv16)
    requires |mem| == VramSize && a % 2 == 0 && b % 2 == 0 && a % VramSize != b % VramSize
    ensures Load16(Store16(mem, a, v), b) == Load16(mem, b)
  {
    Apart(a, b, 2);
    MapAligned(a);
    MapAligned(b);
    var m := Map32(b);
    var s := Store16(mem, a, v);
    assert s[m] == mem[m] && s[m + 1] == mem[m + 1];
  }

  /** `emu_vram`, the byte array behind the interleave. */
  class Vram {
    const bytes: array<bv8>

    ghost predicate Valid()
      reads this
    {
      bytes.Length == VramSize
    }

    constructor ()
      ensures Valid() && fresh(bytes)
    {
      bytes := new bv8[0x80_0000];
    }

    /** `pvr_read_area1_16`. */
    method Read16(addr: u32) returns (v: bv16)
      requires Valid() && addr % 2 == 0
      ensures v == Load16(bytes[..], addr)
    {
      MapAligned(addr);
      var m := Map32(addr);
      v := (bytes[m] as bv16) | ((bytes[m + 1] as bv16) << 8);
    }

    /** `pvr_read_area1_32`. */
    method Read32(addr: u32) returns (v: bv32)
      requires Valid() && addr % 4 == 0
      ensures v == Load32(bytes[..], addr)
    {
      MapAligned(addr);
      var m := Map32(addr);
      v := (bytes[m] as bv32) | ((bytes[m + 1] as bv32) << 8) | ((bytes[m + 2] as bv32) << 16) | ((bytes[m + 3] as bv32) << 24);
    }

    /** `pvr_write_area1_16`: the two bytes at the mapped offset take the
        value and every other byte keeps its own. */
    method Write16(addr: u32, data: bv16)
      requires Valid() && addr % 2 == 0
      modifies bytes
      ensures bytes[..] == Store16(old(bytes[..]), addr, data)
    {
      MapAligned(addr);
      var m := Map32(addr);
      bytes[m] := (data & 0xFF) as bv8;
      bytes[m + 1] := (data >> 8) as bv8;
    }

    /** `pvr_write_area1_32`: the four bytes at the mapped offset take the
        value and every other byte keeps its own. */
    method Write32(addr: u32, data: bv32)
      requires Valid() && addr % 4 == 0
      modifies bytes
      ensures bytes[..] == Store32(old(bytes[..]), addr, data)
    {
      MapAligned(addr);
      var m := Map32(addr);
      bytes[m] := (data & 0xFF) as bv8;
      bytes[m + 1] := ((data >> 8) & 0xFF) as bv8;
      bytes[m + 2] := ((data >> 16) & 0xFF) as bv8;
      bytes[m + 3] := (data >> 24) as bv8;
    }

    /** `vri`: the same word `pvr_read_area1_32` reads. */
    method Vri(addr: u32) returns (v: bv32)
      requires Valid() && addr % 4 == 0
      ensures v == Load32(bytes[..], addr)
    {
      v := Read32(addr);
    }

    /** `vrf`: the same word, taken as the bit pattern of a float. */
    method Vrf(addr: u32) returns (bits: bv32)
      requires Valid() && addr % 4 == 0
      ensures bits == Load32(bytes[..], addr)
    {
      bits := Read32(addr);
    }

    /** `vrp`: the index of that word in the array. */
    method Vrp(addr: u32) returns (i: nat)
      requires Valid() && addr % 4 == 0
      ensures i + 4 <= bytes.Length && Word32At(bytes[..], i) == Load32(bytes[..], addr)
    {
      MapAligned(addr);
      i := Map32(addr);
    }
  }
}
