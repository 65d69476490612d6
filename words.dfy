/**
 * Bytes, big-endian 256-bit words and two's-complement integers, as used by
 * the ABI encodings of script/get-compensation.py and script/math512.py.
 */
module Words {
  import opened Results

  type byte = b: int | 0 <= b < 256

  const TWO_96: int := 0x1000000000000000000000000
  const TWO_192: int := 0x1000000000000000000000000000000000000000000000000
  const TWO_255: int := 0x8000000000000000000000000000000000000000000000000000000000000000
  const TWO_256: int := 0x10000000000000000000000000000000000000000000000000000000000000000
  const TWO_512: int := TWO_256 * TWO_256

  /** Number of bytes in one ABI word. */
  const WORD_LENGTH: nat := 32

  function Pow256(n: nat): (r: nat)
    ensures r > 0
  {
    if n == 0 then 1 else 256 * Pow256(n - 1)
  }

  lemma Pow256Monotone(m: nat, n: nat)
    requires m <= n
    ensures Pow256(m) <= Pow256(n)
  {
  }

  lemma {:induction false} Pow256Add(m: nat, n: nat)
    ensures Pow256(m + n) == Pow256(m) * Pow256(n)
  {
    if m > 0 {
      Pow256Add(m - 1, n);
    }
  }

  lemma Pow256Word()
    ensures Pow256(WORD_LENGTH) == TWO_256
  {
    assert Pow256(2) == 0x10000;
    Pow256Add(2, 2);
    Pow256Add(4, 4);
    Pow256Add(8, 8);
    Pow256Add(16, 16);
  }

  /** The unsigned big-endian value of a byte string (Python's `int.from_bytes(s, "big")`). */
  function FromBytes(s: seq<byte>): (r: nat)
    ensures r < Pow256(|s|)
  {
    if s == [] then 0 else FromBytes(s[..|s| - 1]) * 256 + s[|s| - 1]
  }

  /** The `n` low-order bytes of `v`, most significant first. */
  function ToBytes(v: nat, n: nat): (r: seq<byte>)
    ensures |r| == n
  {
    if n == 0 then [] else ToBytes(v / 256, n - 1) + [v % 256]
  }

  lemma {:induction false} FromToBytes(v: nat, n: nat)
    requires v < Pow256(n)
    ensures FromBytes(ToBytes(v, n)) == v
  {
    if n > 0 {
      var s := ToBytes(v, n);
      assert s[..n - 1] == ToBytes(v / 256, n - 1);
      FromToBytes(v / 256, n - 1);
    }
  }

  lemma {:induction false} ToFromBytes(s: seq<byte>)
    ensures ToBytes(FromBytes(s), |s|) == s
  {
    if s != [] {
      var n := |s|;
      var v := FromBytes(s);
      assert v / 256 == FromBytes(s[..n - 1]);
      assert v % 256 == s[n - 1];
      ToFromBytes(s[..n - 1]);
      assert s == s[..n - 1] + [s[n - 1]];
    }
  }

  /** One 32-byte big-endian word holding `v`. */
  function Word(v: nat): (r: seq<byte>)
    requires v < TWO_256
    ensures |r| == WORD_LENGTH
  {
    ToBytes(v, WORD_LENGTH)
  }

  lemma WordValue(v: nat)
    requires v < TWO_256
    ensures FromBytes(Word(v)) == v
  {
    Pow256Word();
    FromToBytes(v, WORD_LENGTH);
  }

  /**
   * Python's `v.to_bytes(32, "big")`: the word, or None where Python raises
   * OverflowError (a negative value, or one that needs more than 32 bytes).
   */
  function ToWord(v: int): (r: Option<seq<byte>>)
    ensures r.Some? <==> 0 <= v < TWO_256
    ensures r.Some? ==> |r.value| == WORD_LENGTH && FromBytes(r.value) == v
  {
    if 0 <= v < TWO_256 then
      WordValue(v);
      Some(Word(v))
    else None
  }

  function Min(a: int, b: int): int
  {
    if a <= b then a else b
  }

  /**
   * `read_word(data, offset)`: the big-endian value of the slice
   * `data[offset:offset+32]`; like a Python slice, it is clipped to the data,
   * so a short input reads as a shorter (possibly empty) byte string.
   */
  function ReadWord(data: seq<byte>, offset: nat): (r: nat)
    ensures r < TWO_256
  {
    var lo := Min(offset, |data|);
    var hi := Min(offset + WORD_LENGTH, |data|);
    Pow256Monotone(hi - lo, WORD_LENGTH);
    Pow256Word();
    FromBytes(data[lo..hi])
  }

  /** Reading a word back at the position where it was written gives its value. */
  lemma ReadWordAt(data: seq<byte>, offset: nat, v: nat)
    requires v < TWO_256
    requires offset + WORD_LENGTH <= |data|
    requires data[offset..offset + WORD_LENGTH] == Word(v)
    ensures ReadWord(data, offset) == v
  {
    WordValue(v);
  }

  /** `from_solidity_int`: reinterprets a 256-bit word as a two's-complement signed integer. */
  function FromSolidityInt(x: int): (r: int)
    ensures 0 <= x < TWO_256 ==> -TWO_255 <= r < TWO_255
    ensures (x - r) % TWO_256 == 0
    ensures x < TWO_255 ==> r == x
  {
    if x >= TWO_255 then x - TWO_256 else x
  }

  /** The two's-complement word of a signed 256-bit integer (the encoder side of `from_solidity_int`). */
  function ToSolidityInt(t: int): (r: nat)
    requires -TWO_255 <= t < TWO_255
    ensures r < TWO_256
    ensures (r - t) % TWO_256 == 0
  {
    if t < 0 then t + TWO_256 else t
  }

  lemma SolidityIntRoundTrip(t: int)
    requires -TWO_255 <= t < TWO_255
    ensures FromSolidityInt(ToSolidityInt(t)) == t
  {
  }

  lemma SolidityWordRoundTrip(x: int)
    requires 0 <= x < TWO_256
    ensures ToSolidityInt(FromSolidityInt(x)) == x
  {
  }

  /** `v.to_bytes(32, "big")` succeeds exactly for these values. */
  predicate FitsWord(v: int)
  {
    0 <= v < TWO_256
  }

  predicate AllFit(vs: seq<int>)
  {
    forall k :: 0 <= k < |vs| ==> FitsWord(vs[k])
  }

  /** The words of `vs`, back to back. */
  function WordSeq(vs: seq<int>): (r: seq<byte>)
    requires AllFit(vs)
    ensures |r| == 32 * |vs|
  {
    if vs == [] then [] else Word(vs[0]) + WordSeq(vs[1..])
  }

  /** The `i`-th word of `WordSeq(vs)` is the word of `vs[i]`. */
  lemma {:induction false} WordSeqSlice(vs: seq<int>, i: nat)
    requires AllFit(vs)
    requires i < |vs|
    ensures WordSeq(vs)[32 * i .. 32 * i + 32] == Word(vs[i])
  {
    var rest := WordSeq(vs[1..]);
    assert WordSeq(vs) == Word(vs[0]) + rest;
    if i > 0 {
      WordSeqSlice(vs[1..], i - 1);
      assert WordSeq(vs)[32 * i .. 32 * i + 32] == rest[32 * (i - 1) .. 32 * (i - 1) + 32];
    }
  }

  /** A slice of `head + t` past `head` is a slice of `t`. */
  lemma SliceAfter(head: seq<byte>, t: seq<byte>, lo: nat, hi: nat)
    requires lo <= hi <= |t|
    ensures (head + t)[|head| + lo .. |head| + hi] == t[lo..hi]
  {
  }

  /** Word `i` of `head + WordSeq(vs)` holds `vs[i]`. */
  lemma WordSeqWordAt(data: seq<byte>, head: seq<byte>, vs: seq<int>, i: nat)
    requires AllFit(vs)
    requires i < |vs|
    requires data == head + WordSeq(vs)
    ensures |head| + 32 * i + 32 <= |data|
    ensures data[|head| + 32 * i .. |head| + 32 * i + 32] == Word(vs[i])
  {
    WordSeqSlice(vs, i);
    SliceAfter(head, WordSeq(vs), 32 * i, 32 * i + 32);
  }
}
