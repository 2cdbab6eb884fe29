/** The fields_seen words of pb_decode_noinit: one bit for each of the first 64 required fields. */
module PbSeen {
  import opened Words
  import opened PbWire
  import opened PbMessage

  /** The n lowest bits are all set. */
  predicate LowBits(word: nat, n: nat) {
    forall i: nat :: i < n ==> Bit(word, i)
  }

  lemma OnesAreLowBits(word: nat, n: nat)
    requires word < U32 && n <= 32
    requires forall i: nat :: n <= i < 32 ==> !Bit(word, i)
    ensures word == Pow2(n) - 1 <==> LowBits(word, n)
  {
    hide Pow2, Bit;
    Pow2Values();
    if n < 32 {
      Pow2Grows(n, 32);
    }
    var ones: nat := Pow2(n) - 1;
    forall i: nat | i < 32
      ensures Bit(ones, i) <==> i < n
    {
      BitOfOnes(n, i);
    }
    if LowBits(word, n) {
      SameBits(32, word, ones);
    }
  }

  class FieldsSeen {
    /** PB_MAX_REQUIRED_FIELDS / 32 words. */
    const words: array<nat>

    ghost predicate Valid()
      reads this, words
    {
      words.Length == 2 && words[0] < U32 && words[1] < U32
    }

    ghost function Contents(): set<nat>
      requires Valid()
      reads this, words
    {
      set k: nat | k < MAX_REQUIRED && Bit(words[k / 32], k % 32)
    }

    constructor ()
      ensures Valid() && Contents() == {} && fresh(words)
    {
      words := new nat[2];
      new;
      words[0], words[1] := 0, 0;
      forall k: nat ensures !Bit(0, k) {
        BitOfZero(k);
      }
    }

    method Mark(k: nat)
      requires Valid() && k < MAX_REQUIRED
      modifies words
      ensures Valid() && Contents() == old(Contents()) + {k}
    {
      hide Pow2, Bit, Or;
      Pow2Values();
      Pow2Grows(k % 32, 32);
      ghost var was := words[k / 32];
      OrBound(was, Pow2(k % 32), 32);
      words[k / 32] := Or(words[k / 32], Pow2(k % 32));
      forall i: nat | i < 32
        ensures Bit(words[k / 32], i) <==> Bit(was, i) || i == k % 32
      {
        BitOfOr(was, Pow2(k % 32), i);
        BitOfPow2(k % 32, i);
      }
      forall j: nat | j < MAX_REQUIRED
        ensures j in Contents() <==> j in old(Contents()) + {k}
      {
        assert j / 32 == k / 32 && j % 32 == k % 32 ==> j == k;
      }
    }

    /** The closing check: whole words against all ones, the remaining bits against a run of ones. */
    method AllPresent(count: nat) returns (ok: bool)
      requires Valid() && count <= MAX_REQUIRED
      requires forall k :: k in Contents() ==> k < count
      ensures ok <==> forall k: nat :: k < count ==> k in Contents()
    {
      hide Pow2, Bit;
      Pow2Values();
      var i := 0;
      while i < count / 32
        invariant i <= count / 32
        invariant forall k: nat :: k < 32 * i ==> k in Contents()
      {
        OnesAreLowBits(words[i], 32);
        if words[i] != Pow2(32) - 1 {
          ghost var b: nat :| b < 32 && !Bit(words[i], b);
          assert (32 * i + b) / 32 == i && (32 * i + b) % 32 == b;
          assert 32 * i + b !in Contents();
          return false;
        }
        forall k: nat | 32 * i <= k < 32 * i + 32
          ensures k in Contents()
        {
          assert k / 32 == i && Bit(words[i], k % 32);
        }
        i := i + 1;
      }
      if count % 32 != 0 {
        var rest := count % 32;
        forall b: nat | rest <= b < 32
          ensures !Bit(words[i], b)
        {
          assert (32 * i + b) / 32 == i && (32 * i + b) % 32 == b;
          assert 32 * i + b !in Contents();
        }
        OnesAreLowBits(words[i], rest);
        if words[i] != Pow2(rest) - 1 {
          ghost var b: nat :| b < rest && !Bit(words[i], b);
          assert (32 * i + b) / 32 == i && (32 * i + b) % 32 == b;
          assert 32 * i + b !in Contents();
          return false;
        }
        forall k: nat | 32 * i <= k < count
          ensures k in Contents()
        {
          assert k / 32 == i && k % 32 < rest && Bit(words[i], k % 32);
        }
      }
      return true;
    }
  }
}
