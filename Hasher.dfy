/**
 * The hash type and the default string hasher (string_hash and
 * string_equal, the pair behind STRING_HASHER).
 */
module Hasher {

  /** hash_t is uint32_t. */
  const HASH_MODULUS: int := 0x1_0000_0000
  type Hash = x: int | 0 <= x < 0x1_0000_0000

  /** One unsigned byte of a C string. */
  type Byte = x: int | 0 <= x < 256

  const DJB2_INITIAL: Hash := 5381

  /** Reduction of an intermediate result to uint32, as every uint32 operation does. */
  function Wrap(x: int): Hash
  {
    x % HASH_MODULUS
  }

  /** The bytes of a NUL-terminated string: everything before the first 0 byte of memory. */
  ghost function CString(mem: seq<Byte>): (s: seq<Byte>)
    ensures s <= mem
    ensures 0 !in s
    ensures |s| < |mem| ==> mem[|s|] == 0
  {
    if mem == [] || mem[0] == 0 then [] else [mem[0]] + CString(mem[1..])
  }

  /** The djb2 hash of a byte string: start at 5381, then h := h * 33 + c modulo 2^32 per byte. */
  ghost function Djb2(s: seq<Byte>): Hash
  {
    if s == [] then DJB2_INITIAL else Wrap(Djb2(s[..|s| - 1]) * 33 + s[|s| - 1])
  }

  /** Shifting left by 5 and adding, each step reduced to uint32, is multiplying by 33 modulo 2^32. */
  lemma ShiftAddIsTimes33(h: Hash, c: Byte)
    ensures Wrap(Wrap(Wrap(h * 32) + h) + c) == Wrap(h * 33 + c)
  {
    var m := HASH_MODULUS;
    var a := h * 32;
    assert Wrap(a) == a - (a / m) * m;
    var b := Wrap(a) + h;
    assert Wrap(b) == b - (b / m) * m;
    var d := Wrap(b) + c;
    assert d == h * 33 + c - (a / m) * m - (b / m) * m;
  }

  /** string_hash: djb2 over the bytes before the NUL terminator. */
  method StringHash(str: seq<Byte>) returns (h: Hash)
    requires 0 in str
    ensures h == Djb2(CString(str))
  {
    h := DJB2_INITIAL;
    var i := 0;
    while str[i] != 0
      invariant i < |str|
      invariant 0 in str[i..]
      invariant 0 !in str[..i]
      invariant h == Djb2(str[..i])
      decreases |str| - i
    {
      var c := str[i];
      ShiftAddIsTimes33(h, c);
      assert str[..i + 1][..i] == str[..i];
      h := Wrap(Wrap(Wrap(h * 32) + h) + c);
      assert str[i..] == [c] + str[i + 1..];
      i := i + 1;
    }
    assert str[..i] == CString(str) by {
      CStringIsPrefixBeforeNul(str, i);
    }
  }

  /** A prefix that ends at a NUL and holds no NUL is the C string. */
  lemma {:induction false} CStringIsPrefixBeforeNul(mem: seq<Byte>, i: nat)
    requires i < |mem| && mem[i] == 0 && 0 !in mem[..i]
    ensures CString(mem) == mem[..i]
  {
    if i > 0 {
      assert mem[1..][..i - 1] == mem[1..i];
      assert mem[..i] == [mem[0]] + mem[1..i];
      CStringIsPrefixBeforeNul(mem[1..], i - 1);
    }
  }

  /** string_equal: strcmp(key1, key2) == 0, i.e. the two C strings have the same bytes. */
  ghost predicate StringEqual(key1: seq<Byte>, key2: seq<Byte>)
  {
    CString(key1) == CString(key2)
  }

  /** STRING_HASHER meets the hasher contract: equal strings hash equally. */
  lemma StringHasherConsistent(key1: seq<Byte>, key2: seq<Byte>)
    requires StringEqual(key1, key2)
    ensures Djb2(CString(key1)) == Djb2(CString(key2))
  {
  }
}
