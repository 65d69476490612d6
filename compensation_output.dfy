/**
 * The result record printed by script/get-compensation.py: the compensation
 * square-root price (2^96-scaled), the offset 0x40, the number of positions
 * and one word per position reward, laid out like an ABI-encoded
 * `(uint256, uint256[])`.
 */
module CompensationOutput {
  import opened Results
  import opened Words

  /** Offset of the reward array from the start of the record. */
  const REWARDS_OFFSET: nat := 0x40

  /**
   * The byte concatenation at the end of `main`. Every value goes through
   * `to_bytes(32, "big")`, so the record exists only when the price word, the
   * count and every reward fit in 256 unsigned bits (otherwise Python raises
   * OverflowError, modelled as None).
   */
  function EncodeOutput(pstarSqrtX96: int, positionRewards: seq<int>): (r: Option<seq<byte>>)
    ensures r.Some? <==>
      FitsWord(pstarSqrtX96) && |positionRewards| < TWO_256 && AllFit(positionRewards)
    ensures r.Some? ==>
      && |r.value| == 96 + 32 * |positionRewards|
      && ReadWord(r.value, 0) == pstarSqrtX96
      && ReadWord(r.value, 32) == REWARDS_OFFSET
      && ReadWord(r.value, 64) == |positionRewards|
      && forall i :: 0 <= i < |positionRewards| ==> ReadWord(r.value, 96 + 32 * i) == positionRewards[i]
  {
    if FitsWord(pstarSqrtX96) && |positionRewards| < TWO_256 && AllFit(positionRewards) then
      var rewards := WordSeq(positionRewards);
      var a, b, c := Word(pstarSqrtX96), Word(REWARDS_OFFSET), Word(|positionRewards|);
      var encoded := a + b + c + rewards;
      assert encoded[0..32] == a && encoded[32..64] == b && encoded[64..96] == c;
      ReadWordAt(encoded, 0, pstarSqrtX96);
      ReadWordAt(encoded, 32, REWARDS_OFFSET);
      ReadWordAt(encoded, 64, |positionRewards|);
      assert forall i :: 0 <= i < |positionRewards| ==> ReadWord(encoded, 96 + 32 * i) == positionRewards[i] by {
        forall i | 0 <= i < |positionRewards|
          ensures ReadWord(encoded, 96 + 32 * i) == positionRewards[i]
        {
          WordSeqWordAt(encoded, a + b + c, positionRewards, i);
          ReadWordAt(encoded, 96 + 32 * i, positionRewards[i]);
        }
      }
      Some(encoded)
    else
      None
  }
}
