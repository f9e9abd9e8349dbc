/**
 Reading an EBML-laced Block, written from section 10.3.3 of RFC 9559: the reference the laced
 Block of the fixture builder is checked against.
 */
module EbmlLacing {
  import opened Bits
  import opened Bytes
  import opened Wrappers
  import opened EbmlVint

  const LACING_BITS := 6

  /** The header up to and including the flags, and the frames behind the lacing head. */
  datatype Laced = Laced(header: bytes, frames: seq<bytes>)

  /** `count` further sizes, each a signed difference to the one before it. */
  function SizeDifferences(payload: bytes, offset: nat, previous: nat, count: nat): Result<(seq<nat>, nat), Error>
    decreases count
  {
    if count == 0 then Success(([], offset))
    else
      var h :- ReadHeader(payload, offset, true);
      var size := previous + h.value - (Pow2(7 * h.length - 1) - 1);
      if size < 0 then Failure(ValueError)
      else
        var rest :- SizeDifferences(payload, offset + h.length, size, count - 1);
        Success(([size] + rest.0, rest.1))
  }

  /** Frames of the given sizes one after the other; whatever is left over is the last frame. */
  function CutFrames(payload: bytes, offset: nat, sizes: seq<nat>): Result<seq<bytes>, Error>
    decreases |sizes|
  {
    if offset > |payload| then Failure(ValueError)
    else if sizes == [] then Success([payload[offset..]])
    else if offset + sizes[0] > |payload| then Failure(ValueError)
    else
      var rest :- CutFrames(payload, offset + sizes[0], sizes[1..]);
      Success([payload[offset..offset + sizes[0]]] + rest)
  }

  /** The sizes of all frames but the last, and where the frames start. */
  function LacedSizes(payload: bytes, offset: nat, count: nat): Result<(seq<nat>, nat), Error> {
    if count == 1 then Success(([], offset))
    else
      var first :- ReadHeader(payload, offset, true);
      var rest :- SizeDifferences(payload, offset + first.length, first.value, if count >= 2 then count - 2 else 0);
      Success(([first.value] + rest.0, rest.1))
  }

  /** Splits a Block whose flags announce EBML lacing into its header and its frames. */
  function Delace(payload: bytes): Result<Laced, Error> {
    var track :- ReadHeader(payload, 0, false);
    var flags := track.length + 2;
    if flags + 2 > |payload| || And(payload[flags], LACING_BITS) != LACING_BITS then Failure(ValueError)
    else
      var sizes :- LacedSizes(payload, flags + 2, 1 + payload[flags + 1] as int);
      var frames :- CutFrames(payload, sizes.1, sizes.0);
      Success(Laced(payload[..flags + 1], frames))
  }

  /** Setting clear lacing bits adds six to the flags and touches no other bit. */
  lemma SetLacingBits(flags: byte)
    requires And(flags, LACING_BITS) == 0
    ensures Or(flags, LACING_BITS) == flags + 6 < 256
    ensures And(Or(flags, LACING_BITS), LACING_BITS) == LACING_BITS
    ensures And(Or(flags, LACING_BITS), 0xF9) == And(flags, 0xF9)
  {
    hide And, Or;
    AndSix(flags);
    OrSix(flags);
    AndSix(flags + 6);
    var h := flags / 8;
    assert flags == 8 * h + flags % 2;
    ClearLow(h, flags % 2, 0);
    ClearLow(h, flags % 2, 6);
  }

  lemma AndSix(x: nat)
    ensures And(x, 6) == x % 8 - x % 2
  {
    AndThree(x / 2);
    if x > 0 {
      assert And(x, 6) == 2 * And(x / 2, 3);
    }
  }

  lemma AndThree(x: nat)
    ensures And(x, 3) == x % 4
  {
    AndLowMask(x, 2);
    assert Pow2(2) == 4;
  }

  lemma OrSix(x: nat)
    requires x % 8 == x % 2
    ensures Or(x, 6) == x + 6
  {
    var y := x / 2;
    if x > 0 {
      assert Or(x, 6) == 2 * Or(y, 3) + x % 2;
      if y > 0 {
        assert Or(y, 3) == 2 * Or(y / 2, 1) + 1;
        if y / 2 > 0 {
          assert Or(y / 2, 1) == 2 * Or(y / 4, 0) + 1;
        }
      }
    }
  }

  /** The mask `0xF9` drops exactly bits 1 and 2. */
  lemma ClearLow(h: nat, low: nat, lacing: nat)
    requires low < 2 && (lacing == 0 || lacing == 6)
    ensures And(8 * h + lacing + low, 0xF9) == 8 * And(h, 31) + low
  {
    hide And;
    var x := 8 * h + lacing + low;
    OddMask(x, 0xF9);
    HalveMask(x / 2, 0x7C);
    HalveMask(x / 2 / 2, 0x3E);
  }

  lemma OddMask(x: nat, mask: nat)
    requires mask % 2 == 1
    ensures And(x, mask) == 2 * And(x / 2, mask / 2) + x % 2
  {
  }

  lemma HalveMask(x: nat, mask: nat)
    requires mask % 2 == 0 && mask > 0
    ensures And(x, mask) == 2 * And(x / 2, mask / 2)
  {
  }
}
