/** Polling a group: which of the ready, masked-in poll numbers is returned, and that none is passed over for ever. */
module Poll {
  import opened Words
  import opened Bitmap
  import opened Tests
  import opened GenOps
  import opened Gen
  import opened Find
  import opened Same

  const MAX_FIFOS: nat := 128

  /** __u64 fifos_ready[2], fifos_mask[2]. */
  function MapFormat(): Format {
    Format(64, 0, HostOrder(64))
  }

  lemma MapHolds()
    ensures MapFormat().Holds(2) && 2 * MapFormat().W == MAX_FIFOS
  {
  }

  /** The poll numbers that are ready and masked in. */
  function Reportable(ready: seq<bool>, mask: seq<bool>): (r: seq<bool>)
    ensures |r| == MAX_FIFOS && forall p: nat :: p < MAX_FIFOS ==> Bit(r, p) == (Bit(ready, p) && Bit(mask, p))
  {
    seq(MAX_FIFOS, (p: nat) => Bit(ready, p) && Bit(mask, p))
  }

  /** One poll that does not wait: `v` is the first reportable number from `start` on, wrapping around, or 128; the
      next poll starts behind it. */
  ghost predicate Polled(bits: seq<bool>, start: nat, v: nat, start': nat) {
    && LeastCyclic(bits, false, start, MAX_FIFOS, v)
    && start' == if v < MAX_FIFOS then (v + 1) % MAX_FIFOS else start
  }

  const AND: Action := Combine(Op(AndOp, false, false, false))

  lemma AndIsReportable(ready: seq<bool>, mask: seq<Word>)
    requires |ready| == MAX_FIFOS && MapFormat().Holds(|mask|) && |mask| == 2
    ensures GenBits(AND, ready, Aligned(MapFormat(), Map(mask), 0, 0, MAX_FIFOS), 0, MAX_FIFOS)
            == Reportable(ready, MapFormat().Bits(mask))
  {
    hide Format.Bits, Format.Valid, GenBits, Aligned;
    var f := MapFormat();
    var r := GenBits(AND, ready, Aligned(f, Map(mask), 0, 0, MAX_FIFOS), 0, MAX_FIFOS);
    forall p: nat | p < MAX_FIFOS ensures Bit(r, p) == Bit(Reportable(ready, f.Bits(mask)), p) {
      assert Map(mask).HasBit(f, p) == Bit(f.Bits(mask), p);
    }
    SameBits(r, Reportable(ready, f.Bits(mask)));
  }

  lemma ZeroMap(words: seq<Word>)
    requires |words| == 2 && words[0] == Zero(64) && words[1] == Zero(64)
    ensures MapFormat().Holds(2) && MapFormat().Bits(words) == Zero(MAX_FIFOS)
  {
    MapHolds();
    var b := MapFormat().Bits(words);
    forall p: nat | p < MAX_FIFOS ensures Bit(b, p) == Bit(Zero(MAX_FIFOS), p) {
      var k, j := WordOf(p, 64, 2);
      BitsAt(MapFormat(), words, k, j);
    }
    SameBits(b, Zero(MAX_FIFOS));
  }

  class PollGroup {
    const ready: array<Word>
    const mask: array<Word>
    var startPos: nat

    ghost predicate Valid()
      reads this
    {
      ready.Length == 2 && mask.Length == 2 && startPos < MAX_FIFOS && MapFormat().Holds(2)
    }

    /** The numbers a poll may return now. */
    ghost function Bits(): seq<bool>
      requires Valid()
      reads this, ready, mask
    {
      Reportable(MapFormat().Bits(ready[..]), MapFormat().Bits(mask[..]))
    }

    /** A group as the initialisation leaves it: nothing ready, nothing masked in. */
    constructor ()
      ensures Valid() && startPos == 0 && fresh(ready) && fresh(mask)
      ensures MapFormat().Bits(ready[..]) == Zero(MAX_FIFOS) && MapFormat().Bits(mask[..]) == Zero(MAX_FIFOS)
    {
      ready := new Word[2](_ => Zero(64));
      mask := new Word[2](_ => Zero(64));
      startPos := 0;
      new;
      MapHolds();
      ZeroMap(ready[..]);
      ZeroMap(mask[..]);
    }

    /** xdp2_fifo_poll without waiting. */
    method PollNow() returns (v: nat)
      requires Valid()
      modifies this`startPos
      ensures Valid() && Polled(Bits(), old(startPos), v, startPos)
    {
      hide LeastCyclic, Format.Bits, Format.Valid, Reportable, GenBits, Aligned;
      MapHolds();
      var f := MapFormat();
      var fifos := new Word[2](i requires 0 <= i < 2 reads this, ready => ready[i]);
      assert fifos[..] == ready[..];
      AndIsReportable(f.Bits(ready[..]), mask[..]);
      var _ := Same2(f, AND, fifos, Map(mask[..]), 0, MAX_FIFOS, NoTest);
      v := FindRoll(f, fifos[..], false, startPos, MAX_FIFOS);
      if v < MAX_FIFOS {
        startPos := (v + 1) % MAX_FIFOS;
      }
    }
  }

  /** A poll that returns another number brings the start strictly closer to `t`. */
  lemma CloserToTurn(bits: seq<bool>, start: nat, v: nat, start': nat, t: nat)
    requires start < MAX_FIFOS && t < MAX_FIFOS && Bit(bits, t) && Polled(bits, start, v, start') && v != t
    ensures start' < MAX_FIFOS
    ensures 0 <= CyclicDistance(start', t, MAX_FIFOS) < CyclicDistance(start, t, MAX_FIFOS) < MAX_FIFOS
  {
    assert CyclicDistance(start, v, MAX_FIFOS) <= CyclicDistance(start, t, MAX_FIFOS);
  }

  /** Consecutive polls: poll `i` sees `bits[i]`, starts at `starts[i]` and returns `found[i]`. */
  ghost predicate Polls(bits: seq<seq<bool>>, starts: seq<nat>, found: seq<nat>) {
    && |bits| == |found| && |starts| == |found| + 1 && starts[0] < MAX_FIFOS
    && forall i :: 0 <= i < |found| ==> Polled(bits[i], starts[i], found[i], starts[i + 1])
  }

  lemma {:induction false} TurnComes(bits: seq<seq<bool>>, starts: seq<nat>, found: seq<nat>, t: nat)
    requires Polls(bits, starts, found) && t < MAX_FIFOS
    requires forall i :: 0 <= i < |bits| ==> Bit(bits[i], t)
    requires |found| > CyclicDistance(starts[0], t, MAX_FIFOS)
    ensures exists i :: 0 <= i <= CyclicDistance(starts[0], t, MAX_FIFOS) && found[i] == t
    decreases |found|
  {
    hide LeastCyclic, Bit;
    if found[0] != t {
      assert Polled(bits[0], starts[0], found[0], starts[1]);
      CloserToTurn(bits[0], starts[0], found[0], starts[1], t);
      var bits', starts', found' := bits[1..], starts[1..], found[1..];
      forall i | 0 <= i < |found'| ensures Polled(bits'[i], starts'[i], found'[i], starts'[i + 1]) {
        assert Polled(bits[i + 1], starts[i + 1], found[i + 1], starts[i + 2]);
      }
      TurnComes(bits', starts', found', t);
      var i :| 0 <= i <= CyclicDistance(starts'[0], t, MAX_FIFOS) && found'[i] == t;
      assert found[i + 1] == t;
    } else {
      NotNegative(starts[0], t);
    }
  }

  lemma NotNegative(start: nat, t: nat)
    requires start < MAX_FIFOS && t < MAX_FIFOS
    ensures 0 <= CyclicDistance(start, t, MAX_FIFOS) < MAX_FIFOS
  {
  }

  /** Poll fairness: a number that stays ready and masked in over 128 consecutive polls is returned by one of them. */
  lemma PollIsFair(bits: seq<seq<bool>>, starts: seq<nat>, found: seq<nat>, t: nat)
    requires Polls(bits, starts, found) && |found| == MAX_FIFOS && t < MAX_FIFOS
    requires forall i :: 0 <= i < |bits| ==> Bit(bits[i], t)
    ensures t in found
  {
    NotNegative(starts[0], t);
    TurnComes(bits, starts, found, t);
  }
}
