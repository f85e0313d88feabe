// The DTLS anti-replay window (ssl/dtls_record.cc): a 64-bit map and the largest
// sequence number seen, both updated in place, refine the set of accepted numbers.

module ReplayWindow {
  import opened Words

  const WINDOW_SIZE := 64

  // What RFC 6347 section 4.1.2.6 asks for, said about the accepted numbers only:
  // a number is rejected iff it was accepted before or some accepted number is
  // at least a window ahead of it.
  ghost predicate Rejects(accepted: set<nat>, seqNum: nat) {
    seqNum in accepted || exists t :: t in accepted && t >= seqNum + WINDOW_SIZE
  }

  // The representation invariant of (map, max_seq_num): bit i stands for max - i.
  ghost predicate Represents(m: nat, max: nat, accepted: set<nat>) {
    && (if accepted == {} then max == 0 else max in accepted)
    && (forall t :: t in accepted ==> t <= max)
    && BitsMatch(m, max, accepted)
  }

  ghost predicate BitsMatch(m: nat, max: nat, accepted: set<nat>) {
    forall i :: 0 <= i < WINDOW_SIZE ==> (Bit(m, i) <==> max - i in accepted)
  }

  // Inside the window the map decides membership; outside it everything is stale.
  lemma {:induction false} TestDecides(m: nat, max: nat, accepted: set<nat>, seqNum: nat)
    requires Represents(m, max, accepted)
    ensures seqNum > max ==> !Rejects(accepted, seqNum)
    ensures seqNum + WINDOW_SIZE <= max ==> Rejects(accepted, seqNum)
    ensures seqNum <= max < seqNum + WINDOW_SIZE ==>
              (Rejects(accepted, seqNum) <==> Bit(m, max - seqNum))
  {
  }

  // Sliding the window forward keeps what it says about the accepted numbers.
  lemma {:induction false} SlideKeepsBits(m: nat, max: nat, accepted: set<nat>, newMax: nat)
    requires Represents(m, max, accepted) && newMax > max
    ensures BitsMatch(if newMax - max >= WINDOW_SIZE then 0 else ShiftLeft64(m, newMax - max), newMax, accepted)
  {
    var shift := newMax - max;
    var m' := if shift >= WINDOW_SIZE then 0 else ShiftLeft64(m, shift);
    forall i | 0 <= i < WINDOW_SIZE
      ensures Bit(m', i) <==> newMax - i in accepted
    {
      if shift >= WINDOW_SIZE {
        BitOfZero(i);
      } else {
        BitOfShift(m, shift, i);
        assert i >= shift ==> (Bit(m, i - shift) <==> max - (i - shift) in accepted);
      }
    }
  }

  lemma {:induction false} MarkAddsNumber(m: nat, max: nat, accepted: set<nat>, seqNum: nat)
    requires BitsMatch(m, max, accepted)
    requires seqNum <= max < seqNum + WINDOW_SIZE
    ensures BitsMatch(Or(m, Pow2(max - seqNum)), max, accepted + {seqNum})
  {
    var m' := Or(m, Pow2(max - seqNum));
    forall i | 0 <= i < WINDOW_SIZE
      ensures Bit(m', i) <==> max - i in accepted + {seqNum}
    {
      BitOfOr(m, Pow2(max - seqNum), i);
      BitOfPow2(max - seqNum, i);
    }
  }

  lemma {:induction false} EmptyWindow()
    ensures Represents(0, 0, {})
  {
    var m := 0;
    forall i | 0 <= i < WINDOW_SIZE
      ensures !Bit(m, i)
    {
      BitOfZero(i);
    }
  }

  class Dtls1Bitmap {
    var map': nat  // uint64_t
    var maxSeqNum: nat
    ghost var accepted: set<nat>

    ghost predicate Valid()
      reads this
    {
      map' < Pow2(64) && Represents(map', maxSeqNum, accepted)
    }

    constructor ()
      ensures Valid() && accepted == {}
    {
      map', maxSeqNum, accepted := 0, 0, {};
      EmptyWindow();
    }

    // Zeroing both fields, as an epoch change does.
    method Clear()
      modifies this
      ensures Valid() && accepted == {}
    {
      map', maxSeqNum, accepted := 0, 0, {};
      EmptyWindow();
    }

    method ShouldDiscard(seqNum: nat) returns (discard: bool)
      requires Valid()
      ensures discard <==> Rejects(accepted, seqNum)
    {
      TestDecides(map', maxSeqNum, accepted, seqNum);
      if seqNum > maxSeqNum {
        return false;
      }
      var idx := maxSeqNum - seqNum;
      AndTestsBit(map', idx);
      discard := idx >= WINDOW_SIZE || And(map', Pow2(idx)) != 0;
    }

    // The source calls it an error to record a stale number.
    method Record(seqNum: nat)
      requires Valid() && !Rejects(accepted, seqNum)
      modifies this
      ensures Valid() && accepted == old(accepted) + {seqNum}
    {
      TestDecides(map', maxSeqNum, accepted, seqNum);
      if seqNum > maxSeqNum {
        SlideKeepsBits(map', maxSeqNum, accepted, seqNum);
        var shift := seqNum - maxSeqNum;
        if shift >= WINDOW_SIZE {
          map' := 0;
        } else {
          map' := ShiftLeft64(map', shift);
        }
        maxSeqNum := seqNum;
      }
      var idx := maxSeqNum - seqNum;
      if idx < WINDOW_SIZE {
        MarkAddsNumber(map', maxSeqNum, accepted, seqNum);
        Pow2Grows(idx, 64);
        OrBelow(map', Pow2(idx), 64);
        map' := Or(map', Pow2(idx));
      }
      accepted := accepted + {seqNum};
    }
  }
}
