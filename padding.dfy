/**
 * `MessagePadding`: PKCS#7-style padding of private payloads to a block
 * size, with random filler bytes and the pad length in the last byte, and
 * the choice of the block size.
 */
module Padding {
  import opened ByteSeq

  /** The block sizes, smallest first. */
  const BlockSizes: seq<int> := [256, 512, 1024, 2048]

  /** Whether `pad` adds anything: the data is shorter than the target by 1 to 255 bytes. */
  predicate PadsTo(n: int, targetSize: int) {
    n < targetSize && targetSize - n <= 255
  }

  /**
   * What `pad` returns: the data, then `paddingNeeded - 1` random bytes, then
   * `paddingNeeded` itself; or the data unchanged when no padding fits.
   */
  function Padded(data: Bytes, targetSize: int, noise: Bytes): (r: Bytes)
    requires PadsTo(|data|, targetSize) ==> |noise| == targetSize - |data| - 1
    ensures !PadsTo(|data|, targetSize) ==> r == data
    ensures PadsTo(|data|, targetSize) ==>
      |r| == targetSize && r[..|data|] == data && r[targetSize - 1] == targetSize - |data|
  {
    if !PadsTo(|data|, targetSize) then data
    else data + noise + [targetSize - |data|]
  }

  /**
   * `pad`: allocates the padded array and fills it with the data, the random
   * bytes and the pad length. `noise` stands for what the secure random
   * source returns for `paddingNeeded - 1` bytes.
   */
  method Pad(data: array<byte>, targetSize: int, noise: Bytes) returns (r: array<byte>)
    requires PadsTo(data.Length, targetSize) ==> |noise| == targetSize - data.Length - 1
    ensures r[..] == Padded(data[..], targetSize, noise)
    ensures !PadsTo(data.Length, targetSize) ==> r == data
    ensures PadsTo(data.Length, targetSize) ==> fresh(r)
  {
    if data.Length >= targetSize {
      return data;
    }
    var paddingNeeded := targetSize - data.Length;
    if paddingNeeded > 255 {
      return data;
    }
    var padded := new byte[targetSize];
    forall i | 0 <= i < data.Length {
      padded[i] := data[i];
    }
    forall i | 0 <= i < |noise| {
      padded[data.Length + i] := noise[i];
    }
    padded[targetSize - 1] := paddingNeeded;
    assert padded[..] == data[..] + noise + [paddingNeeded] by {
      assert forall i :: 0 <= i < data.Length ==> padded[..][i] == data[..][i];
    }
    r := padded;
  }

  /** `unpad`: strips as many bytes as the last byte says, when that is between 1 and the length. */
  function Unpad(data: Bytes): (r: Bytes)
    ensures |data| == 0 || data[|data| - 1] == 0 || data[|data| - 1] > |data| ==> r == data
    ensures 0 < |data| && 0 < data[|data| - 1] <= |data| ==>
      r == data[..|data| - data[|data| - 1]]
  {
    if |data| == 0 then data
    else
      var paddingLength := data[|data| - 1];
      if paddingLength <= 0 || paddingLength > |data| then data
      else data[..|data| - paddingLength]
  }

  /** Unpadding undoes padding, whatever the random filler was. */
  lemma UnpadPad(data: Bytes, targetSize: int, noise: Bytes)
    requires PadsTo(|data|, targetSize) && |noise| == targetSize - |data| - 1
    ensures Unpad(Padded(data, targetSize, noise)) == data
  {
    var p := Padded(data, targetSize, noise);
    assert p[|p| - 1] == targetSize - |data|;
    assert p[..|data|] == data;
  }

  /** `firstOrNull`: the index of the first size at least `total`, or `|sizes|` when there is none. */
  function FirstFitting(sizes: seq<int>, total: int): (k: nat)
    ensures k <= |sizes|
    ensures forall j :: 0 <= j < k ==> sizes[j] < total
    ensures k < |sizes| ==> total <= sizes[k]
  {
    if |sizes| == 0 then 0
    else if total <= sizes[0] then 0
    else 1 + FirstFitting(sizes[1..], total)
  }

  /**
   * `optimalBlockSize`: the smallest block size that holds the data plus 16
   * bytes of overhead, else the data size itself. `dataSize + 16` is a
   * 32-bit `Int` sum and wraps around.
   */
  function OptimalBlockSize(dataSize: int): int {
    var totalSize := WrapInt(dataSize + 16);
    var k := FirstFitting(BlockSizes, totalSize);
    if k == |BlockSizes| then dataSize else BlockSizes[k]
  }

  /** Without overflow the block is the smallest listed size that holds `dataSize + 16`, or `dataSize` when none does. */
  lemma OptimalBlockSizeSmallest(dataSize: int)
    requires -0x8000_0000 <= dataSize && dataSize + 16 < 0x8000_0000
    ensures dataSize + 16 <= 2048 ==> OptimalBlockSize(dataSize) in BlockSizes
    ensures dataSize + 16 <= 2048 ==> dataSize + 16 <= OptimalBlockSize(dataSize)
    ensures forall b :: b in BlockSizes && dataSize + 16 <= b ==> OptimalBlockSize(dataSize) <= b
    ensures dataSize + 16 > 2048 ==> OptimalBlockSize(dataSize) == dataSize
  {
    var t := dataSize + 16;
    assert WrapInt(t) == t by {
      if t >= 0 {
        DivModUnique(t, TwoTo32, 0, t);
      } else {
        DivModUnique(t, TwoTo32, -1, t + TwoTo32);
      }
    }
    assert BlockSizes[3] == 2048;
  }

  /** With a size near the top of the `Int` range the sum wraps negative and the smallest block is chosen. */
  lemma OptimalBlockSizeOverflow(dataSize: int)
    requires dataSize < 0x8000_0000 && dataSize + 16 >= 0x8000_0000
    ensures OptimalBlockSize(dataSize) == 256
  {
    var t := dataSize + 16;
    DivModUnique(t, TwoTo32, 0, t);
    assert WrapInt(t) == t - TwoTo32;
  }
}
