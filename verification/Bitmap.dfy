/** The program's record of which accounts belong to it: 256 bits in four words. */
module Bitmap {
  import opened Numbers

  /** `word & (1 << k) != 0` */
  predicate Bit(word: nat, k: nat) {
    if k == 0 then word % 2 == 1 else Bit(word / 2, k - 1)
  }

  /** `word | (1 << k)` */
  function WithBit(word: nat, k: nat): nat {
    if k == 0 then word / 2 * 2 + 1 else WithBit(word / 2, k - 1) * 2 + word % 2
  }

  lemma {:induction false} WithBitSetsOne(word: nat, k: nat, j: nat)
    ensures Bit(WithBit(word, k), j) <==> j == k || Bit(word, j)
  {
    if k > 0 && j > 0 {
      WithBitSetsOne(word / 2, k - 1, j - 1);
    }
  }

  lemma Halves(word: nat, half: nat)
    ensures word < 2 * half ==> word / 2 < half && word / 2 * 2 + 1 < 2 * half
  {
  }

  lemma {:induction false} WithBitFits(word: nat, k: nat, n: nat)
    requires word < Pow2(n) && k < n
    ensures WithBit(word, k) < Pow2(n)
  {
    Halves(word, Pow2(n - 1));
    if k > 0 {
      WithBitFits(word / 2, k - 1, n - 1);
    }
  }

  lemma {:induction false} NoBitOfZero(k: nat)
    ensures !Bit(0, k)
  {
    if k > 0 {
      NoBitOfZero(k - 1);
    }
  }

  class TitanPdaBitmap {
    const words: array<u64>

    ghost predicate Valid() {
      words.Length == 4
    }

    /** The indices set so far. */
    ghost function Contents(): set<nat>
      requires Valid()
      reads words
    {
      set i: nat | i < 256 && Bit(words[i / 64], i % 64)
    }

    constructor ()
      ensures Valid() && fresh(words) && Contents() == {}
    {
      words := new u64[4](_ => 0);
      new;
      forall k: nat {
        NoBitOfZero(k);
      }
    }

    method Set(index: nat)
      requires Valid()
      modifies words
      ensures Contents() == old(Contents()) + if index < 256 then {index} else {}
    {
      if index < 256 {
        ghost var before := words[..];
        Pow2Values();
        WithBitFits(words[index / 64], index % 64, 64);
        words[index / 64] := WithBit(words[index / 64], index % 64);
        forall i: nat | i < 256
          ensures Bit(words[i / 64], i % 64) <==> i == index || Bit(before[i / 64], i % 64)
        {
          if i / 64 == index / 64 {
            WithBitSetsOne(before[index / 64], index % 64, i % 64);
          }
        }
      }
    }

    method IsSet(index: nat) returns (b: bool)
      requires Valid()
      ensures b <==> index in Contents()
    {
      b := index < 256 && Bit(words[index / 64], index % 64);
    }
  }
}
