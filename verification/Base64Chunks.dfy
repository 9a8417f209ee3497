/** Encoding a payload chunk by chunk (apps/server/src/ingest/storage.rs): no chunk but the
    last may leave a group of three bytes unfinished. */
module Base64Chunks {
  import opened Wrappers
  import Base64

  const BASE64_WRITE_CHUNK_SIZE: nat := 49152

  /** A half-open range of a payload. */
  type Range = (nat, nat)

  function FullLength(dataLength: nat): (r: nat)
    ensures r <= dataLength && r % 3 == 0 && dataLength - r < 3
  {
    dataLength - dataLength % 3
  }

  /** The ranges still to come at `offset`. */
  function RangesFrom(offset: nat, dataLength: nat): seq<Range>
    decreases dataLength - offset
  {
    var fullLength := FullLength(dataLength);
    if offset < fullLength then
      var end := if offset + BASE64_WRITE_CHUNK_SIZE < fullLength then offset + BASE64_WRITE_CHUNK_SIZE else fullLength;
      [(offset, end)] + RangesFrom(end, dataLength)
    else if offset == fullLength && fullLength < dataLength then [(fullLength, dataLength)]
    else []
  }

  /** Non-empty ranges one after another from `from` to `to`. */
  ghost predicate Contiguous(ranges: seq<Range>, from: nat, to: nat) {
    if ranges == [] then from == to
    else ranges[0].0 == from < ranges[0].1 && Contiguous(ranges[1..], ranges[0].1, to)
  }

  ghost predicate WholeButLast(ranges: seq<Range>) {
    forall k | 0 <= k < |ranges| - 1 :: ranges[k].0 <= ranges[k].1 && (ranges[k].1 - ranges[k].0) % 3 == 0
  }

  /** Where a step of the iterator may stop. */
  predicate Boundary(offset: nat, dataLength: nat) {
    offset == dataLength || (offset < dataLength && offset % 3 == 0)
  }

  lemma RangesCons(offset: nat, dataLength: nat)
    requires Boundary(offset, dataLength) && offset < dataLength
    ensures var r := RangesFrom(offset, dataLength);
      && r != [] && r[0].0 == offset < r[0].1 <= dataLength
      && r[0].1 - offset <= BASE64_WRITE_CHUNK_SIZE
      && Boundary(r[0].1, dataLength) && r[1..] == RangesFrom(r[0].1, dataLength)
      && (r[0].1 < dataLength ==> (r[0].1 - offset) % 3 == 0)
  {
    var fullLength := FullLength(dataLength);
    if offset >= fullLength {
      assert offset == fullLength;
      assert RangesFrom(dataLength, dataLength) == [];
    }
  }

  /** The ranges partition the payload, none is over the chunk size, and every one but the
      last is a whole number of groups. */
  lemma {:induction false} RangesPartition(offset: nat, dataLength: nat)
    requires Boundary(offset, dataLength)
    ensures Contiguous(RangesFrom(offset, dataLength), offset, dataLength)
    ensures WholeButLast(RangesFrom(offset, dataLength))
    ensures forall r | r in RangesFrom(offset, dataLength) :: r.1 - r.0 <= BASE64_WRITE_CHUNK_SIZE
    decreases dataLength - offset
  {
    hide RangesFrom;
    var ranges := RangesFrom(offset, dataLength);
    if offset == dataLength {
      NoRanges(offset);
    } else {
      RangesCons(offset, dataLength);
      var next := ranges[0].1;
      RangesPartition(next, dataLength);
      if next == dataLength { NoRanges(next); }
      forall k | 0 <= k < |ranges| - 1
        ensures ranges[k].0 <= ranges[k].1 && (ranges[k].1 - ranges[k].0) % 3 == 0
      {
        if k > 0 { assert ranges[k] == ranges[1..][k - 1]; }
      }
      assert ranges == [ranges[0]] + ranges[1..];
    }
  }

  lemma NoRanges(dataLength: nat)
    ensures RangesFrom(dataLength, dataLength) == []
  {
  }

  ghost predicate Within(ranges: seq<Range>, length: nat) {
    forall k | 0 <= k < |ranges| :: ranges[k].0 <= ranges[k].1 <= length
  }

  /** The encodings of the ranges one after another. */
  function EncodedRanges(data: seq<byte>, ranges: seq<Range>): seq<byte>
    requires Within(ranges, |data|)
  {
    if ranges == [] then []
    else
      assert forall k | 0 <= k < |ranges[1..]| :: ranges[1..][k] == ranges[k + 1];
      Base64.Encode(data[ranges[0].0..ranges[0].1]) + EncodedRanges(data, ranges[1..])
  }

  lemma {:induction false} RangesWithin(offset: nat, dataLength: nat)
    requires Boundary(offset, dataLength)
    ensures Within(RangesFrom(offset, dataLength), dataLength)
    decreases dataLength - offset
  {
    hide RangesFrom;
    var ranges := RangesFrom(offset, dataLength);
    if offset == dataLength {
      NoRanges(offset);
    } else {
      RangesCons(offset, dataLength);
      RangesWithin(ranges[0].1, dataLength);
      forall k | 0 <= k < |ranges| ensures ranges[k].0 <= ranges[k].1 <= dataLength {
        if k > 0 { assert ranges[k] == ranges[1..][k - 1]; }
      }
    }
  }

  /** Encoding range by range and concatenating is encoding the whole. */
  lemma {:induction false} ChunkedEncodingIsEncoding(data: seq<byte>, offset: nat)
    requires Boundary(offset, |data|)
    ensures Within(RangesFrom(offset, |data|), |data|)
    ensures EncodedRanges(data, RangesFrom(offset, |data|)) == Base64.Encode(data[offset..])
    decreases |data| - offset
  {
    hide RangesFrom, Base64.Encode;
    RangesWithin(offset, |data|);
    if offset == |data| {
      NoRanges(offset);
      EncodeNothing();
      assert data[offset..] == [];
    } else {
      RangesCons(offset, |data|);
      var next := RangesFrom(offset, |data|)[0].1;
      ChunkedEncodingIsEncoding(data, next);
      assert data[offset..] == data[offset..next] + data[next..];
      if next < |data| {
        Base64.EncodeSplits(data[offset..next], data[next..]);
      } else {
        EncodeNothing();
        assert data[next..] == [] && data[offset..next] == data[offset..];
        assert Base64.Encode(data[offset..]) + [] == Base64.Encode(data[offset..]);
      }
    }
  }

  lemma EncodeNothing()
    ensures Base64.Encode([]) == []
  {
  }

  /** The iterator of `base64_chunk_ranges`. */
  class ChunkRanges {
    const dataLength: nat
    const fullLength: nat
    var offset: nat

    ghost predicate Valid()
      reads this
    {
      fullLength == FullLength(dataLength) && Boundary(offset, dataLength)
    }

    ghost function Remaining(): seq<Range>
      reads this
    {
      RangesFrom(offset, dataLength)
    }

    constructor (dataLength: nat)
      ensures Valid() && this.dataLength == dataLength && offset == 0
    {
      this.dataLength := dataLength;
      fullLength := dataLength - dataLength % 3;
      offset := 0;
    }

    method Next() returns (r: Option<Range>)
      requires Valid()
      modifies this
      ensures Valid()
      ensures match r
        case None => old(offset) == offset == dataLength && Remaining() == []
        case Some(range) => range == (old(offset), offset) && old(offset) < offset
                            && old(Remaining()) == [range] + Remaining()
    {
      if offset < fullLength {
        var start := offset;
        var end := offset + BASE64_WRITE_CHUNK_SIZE;
        offset := if end < fullLength then end else fullLength;
        return Some((start, offset));
      } else if offset == fullLength && fullLength < dataLength {
        offset := dataLength;
        return Some((fullLength, dataLength));
      } else {
        return None;
      }
    }
  }
}
