// The bitset of required fields: two 32-bit words stand for the set of fields seen.

module PbSeen {
  import opened Words
  import opened PbMessages
  import opened PbDecoding

  // The required field with index b is in the set.
  ghost predicate SeenIndex(fields: seq<Field>, seen: set<nat>, b: nat) {
    exists i :: 0 <= i < |fields| && fields[i].htype.Required? && RequiredBefore(fields, i) == b && i in seen
  }

  ghost predicate SeenAt(fields: seq<Field>, seen: set<nat>, base: nat, b: nat) {
    SeenIndex(fields, seen, base + b)
  }

  // A word that holds the indices from base on.
  ghost predicate Word(fields: seq<Field>, seen: set<nat>, w: nat, base: nat) {
    w < Pow2(32) && forall b: nat :: b < 32 ==> (Bit(w, b) <==> SeenAt(fields, seen, base, b))
  }

  ghost predicate Bits(fields: seq<Field>, seen: set<nat>, w0: nat, w1: nat) {
    Word(fields, seen, w0, 0) && Word(fields, seen, w1, 32)
  }

  lemma {:induction false} NoBits(fields: seq<Field>)
    ensures Bits(fields, {}, 0, 0)
  {
    forall b: nat
      ensures !Bit(0, b)
    {
      BitOfZero(b);
    }
  }

  // Indices grow from one required field to the next.
  lemma {:induction false} IndicesGrow(fields: seq<Field>, i: nat, j: nat)
    requires i < j <= |fields| && fields[i].htype.Required?
    ensures RequiredBefore(fields, i) < RequiredBefore(fields, j)
    decreases j
  {
    if i < j - 1 {
      IndicesGrow(fields, i, j - 1);
    }
  }

  lemma {:induction false} IndexIsUnique(fields: seq<Field>, i: nat, j: nat)
    requires i < |fields| && j < |fields| && fields[i].htype.Required? && fields[j].htype.Required?
    requires RequiredBefore(fields, i) == RequiredBefore(fields, j)
    ensures i == j
  {
    if i < j {
      IndicesGrow(fields, i, j);
    } else if j < i {
      IndicesGrow(fields, j, i);
    }
  }

  lemma {:induction false} IndexExists(fields: seq<Field>, n: nat, b: nat) returns (i: nat)
    requires n <= |fields| && b < RequiredBefore(fields, n)
    ensures i < n && fields[i].htype.Required? && RequiredBefore(fields, i) == b
  {
    if b < RequiredBefore(fields, n - 1) {
      i := IndexExists(fields, n - 1, b);
    } else {
      i := n - 1;
    }
  }

  lemma {:induction false} SeenOneMore(fields: seq<Field>, seen: set<nat>, i: nat, b: nat)
    requires i < |fields| && fields[i].htype.Required?
    ensures SeenIndex(fields, seen + {i}, b) <==> SeenIndex(fields, seen, b) || b == RequiredBefore(fields, i)
  {
  }

  // fields_seen[index >> 5] |= 1 << (index & 31)
  lemma {:induction false} BitsOneMore(fields: seq<Field>, seen: set<nat>, w0: nat, w1: nat, i: nat)
    requires Bits(fields, seen, w0, w1) && i < |fields| && fields[i].htype.Required? && RequiredBefore(fields, i) < 64
    ensures RequiredBefore(fields, i) < 32 ==> Bits(fields, seen + {i}, Or(w0, Pow2(RequiredBefore(fields, i))), w1)
    ensures RequiredBefore(fields, i) >= 32 ==>
              Bits(fields, seen + {i}, w0, Or(w1, Pow2(RequiredBefore(fields, i) - 32)))
  {
    var r := RequiredBefore(fields, i);
    var k := if r < 32 then r else r - 32;
    Pow2Grows(k, 32);
    OrBelow(w0, Pow2(k), 32);
    OrBelow(w1, Pow2(k), 32);
    forall b: nat | b < 32
      ensures Bit(Or(w0, Pow2(k)), b) <==> Bit(w0, b) || b == k
      ensures Bit(Or(w1, Pow2(k)), b) <==> Bit(w1, b) || b == k
    {
      BitOfOr(w0, Pow2(k), b);
      BitOfOr(w1, Pow2(k), b);
      BitOfPow2(k, b);
    }
    forall base: nat, b: nat
      ensures SeenAt(fields, seen + {i}, base, b) <==> SeenAt(fields, seen, base, b) || base + b == r
    {
      SeenOneMore(fields, seen, i, base + b);
    }
  }

  // Such a word is all ones below n exactly when all those indices are in the set.
  lemma {:induction false} WordIsFull(fields: seq<Field>, seen: set<nat>, w: nat, base: nat, n: nat)
    requires Word(fields, seen, w, base) && n <= 32
    requires forall b: nat :: n <= b < 32 ==> !SeenAt(fields, seen, base, b)
    ensures w == Pow2(n) - 1 <==> forall b: nat :: b < n ==> SeenAt(fields, seen, base, b)
  {
    var mask := Pow2(n) - 1;
    forall b: nat | b < 32
      ensures Bit(mask, b) <==> b < n
    {
      BitOfLowMask(n, b);
    }
    if forall b: nat :: b < n ==> SeenAt(fields, seen, base, b) {
      if n < 32 {
        Pow2Grows(n, 32);
      }
      forall b | 0 <= b < 32
        ensures Bit(w, b) <==> Bit(mask, b)
      {
        assert Bit(w, b) <==> SeenAt(fields, seen, base, b);
      }
      SameBits(w, mask, 32);
    } else {
      var b: nat :| b < n && !SeenAt(fields, seen, base, b);
      assert Bit(mask, b) && !Bit(w, b);
    }
  }

  lemma {:induction false} NothingBeyond(fields: seq<Field>, seen: set<nat>, b: nat)
    requires b >= RequiredBefore(fields, |fields|)
    ensures !SeenIndex(fields, seen, b)
  {
    forall i | 0 <= i < |fields| && fields[i].htype.Required?
      ensures RequiredBefore(fields, i) < RequiredBefore(fields, |fields|)
    {
      IndicesGrow(fields, i, |fields|);
    }
  }

  lemma {:induction false} AllIndicesSeen(fields: seq<Field>, seen: set<nat>)
    ensures RequiredSeen(fields, seen)
            <==> forall b: nat :: b < RequiredBefore(fields, |fields|) ==> SeenIndex(fields, seen, b)
  {
    if RequiredSeen(fields, seen) {
      forall b: nat | b < RequiredBefore(fields, |fields|)
        ensures SeenIndex(fields, seen, b)
      {
        var i := IndexExists(fields, |fields|, b);
        assert i in seen;
      }
    }
    if forall b: nat :: b < RequiredBefore(fields, |fields|) ==> SeenIndex(fields, seen, b) {
      forall i | 0 <= i < |fields| && fields[i].htype.Required?
        ensures i in seen
      {
        IndicesGrow(fields, i, |fields|);
        assert SeenIndex(fields, seen, RequiredBefore(fields, i));
        var j :| 0 <= j < |fields| && fields[j].htype.Required?
                 && RequiredBefore(fields, j) == RequiredBefore(fields, i) && j in seen;
        IndexIsUnique(fields, i, j);
      }
    }
  }

  // The final check of pb_decode_noinit: whole words first, then the remaining bits.
  predicate WordsFull(w0: nat, w1: nat, n: nat) {
    if n < 32 then w0 == Pow2(n) - 1 else w0 == Pow2(32) - 1 && w1 == Pow2(n - 32) - 1
  }

  lemma {:induction false} WordsDecide(fields: seq<Field>, seen: set<nat>, w0: nat, w1: nat)
    requires Bits(fields, seen, w0, w1) && RequiredBefore(fields, |fields|) < 64
    ensures WordsFull(w0, w1, RequiredBefore(fields, |fields|)) <==> RequiredSeen(fields, seen)
  {
    var n := RequiredBefore(fields, |fields|);
    forall base: nat, b: nat | base + b >= n
      ensures !SeenAt(fields, seen, base, b)
    {
      NothingBeyond(fields, seen, base + b);
    }
    AllIndicesSeen(fields, seen);
    WordIsFull(fields, seen, w0, 0, if n < 32 then n else 32);
    forall b: nat
      ensures SeenAt(fields, seen, 0, b) == SeenIndex(fields, seen, b)
      ensures b >= 32 ==> SeenAt(fields, seen, 32, b - 32) == SeenIndex(fields, seen, b)
    {
    }
    if n >= 32 {
      WordIsFull(fields, seen, w1, 32, n - 32);
    }
  }

  // ~0 >> (32 - k), on 32 bits
  lemma {:induction false} ShiftedOnes(k: nat)
    requires 0 < k < 32
    ensures (Pow2(32) - 1) / Pow2(32 - k) == Pow2(k) - 1
  {
    PowerOfSum(k, 32 - k);
    var p, q := Pow2(k), Pow2(32 - k);
    OneFewer(p, q);
    QuotientIsUnique(p * q - 1, q, p - 1, q - 1);
  }

  lemma OneFewer(p: nat, q: nat)
    requires p > 0
    ensures (p - 1) * q == p * q - q
  {
  }

  lemma {:induction false} QuotientIsUnique(y: nat, p: nat, q: nat, r: nat)
    requires p > 0 && y == q * p + r && r < p
    ensures y / p == q
  {
    RemainderIsUnique(y, p, q, r);
    Cancel(y / p, q, p);
  }

  lemma {:induction false} Cancel(a: nat, b: nat, p: nat)
    requires p > 0 && a * p == b * p
    ensures a == b
  {
  }
}
