/** The route encoding is decodable, canonical and prefix-free, and legs survive concatenation. */
module SwapRouteLaws {
  import opened Numbers
  import opened Quoting
  import opened SwapRoute

  // ------------------------------------------------------------------------------------
  // Wire format
  // ------------------------------------------------------------------------------------

  lemma {:induction false} NumberRoundTrip(x: nat, n: nat)
    requires x < Base(n)
    ensures FromLittleEndian(LittleEndian(x, n)) == x
  {
    if n > 0 {
      NumberRoundTrip(x / 256, n - 1);
      assert LittleEndian(x, n)[1..] == LittleEndian(x / 256, n - 1);
    }
  }

  lemma LowByte(low: byte, high: nat)
    ensures (low + 256 * high) % 256 == low && (low + 256 * high) / 256 == high
  {
  }

  lemma {:induction false} NumberCanonical(b: bytes)
    ensures LittleEndian(FromLittleEndian(b), |b|) == b
  {
    if b != [] {
      NumberCanonical(b[1..]);
      LowByte(b[0], FromLittleEndian(b[1..]));
      assert [b[0]] + b[1..] == b;
    }
  }

  /** The bytes of a number, the low one first. */
  lemma LowByteFirst(x: u32)
    ensures var b := LittleEndian(x, 4);
            x == b[0] as int + b[1] as int * 0x100 + b[2] as int * 0x1_0000 + b[3] as int * 0x100_0000
  {
    var b := LittleEndian(x, 4);
    assert b[1..] == LittleEndian(x / 256, 3);
    assert b[1..][1..] == LittleEndian(x / 256 / 256, 2);
    assert b[1..][1..][1..] == LittleEndian(x / 256 / 256 / 256, 1);
    assert b[0] == x % 256 && b[1] == x / 256 % 256 && b[2] == x / 256 / 256 % 256;
    assert b[3] == x / 256 / 256 / 256 % 256;
  }

  lemma VenueRoundTrip(v: VenueId, rest: bytes)
    ensures DecodeVenue(EncodeVenue(v) + rest) == Parsed(v, rest)
  {
    match v
    case RaydiumAmm => assert ([0] + rest)[1..] == rest;
    case Huma(isDeposit) => assert ([1, if isDeposit then 1 else 0] + rest)[2..] == rest;
  }

  lemma VenueCanonical(b: bytes)
    requires DecodeVenue(b).Parsed?
    ensures b == EncodeVenue(DecodeVenue(b).value) + DecodeVenue(b).rest
  {
    if b[0] == 0 {
      assert b == [0] + b[1..];
    } else {
      assert b == [1, b[1]] + b[2..];
    }
  }

  lemma SwapRoundTrip(s: Swap, rest: bytes)
    ensures DecodeSwap(EncodeSwap(s) + rest) == Parsed(s, rest)
  {
    var w := LittleEndian(s.weightNanos, 4);
    var tail := [s.from, s.to] + w + [s.nAccounts] + rest;
    assert EncodeSwap(s) + rest == EncodeVenue(s.venue) + tail;
    VenueRoundTrip(s.venue, tail);
    assert tail[2..6] == w && tail[6] == s.nAccounts && tail[7..] == rest;
    NumberFitsIn(w, 4);
    NumberRoundTrip(s.weightNanos, 4);
  }

  lemma BodyCanonical(r: bytes)
    requires |r| >= 7
    ensures r == [r[0], r[1]] + LittleEndian(FromLittleEndian(r[2..6]), 4) + [r[6]] + r[7..]
  {
    NumberCanonical(r[2..6]);
  }

  lemma SwapCanonical(b: bytes)
    requires DecodeSwap(b).Parsed?
    ensures b == EncodeSwap(DecodeSwap(b).value) + DecodeSwap(b).rest
  {
    var v, r := DecodeVenue(b).value, DecodeVenue(b).rest;
    VenueCanonical(b);
    BodyCanonical(r);
    var body := [r[0], r[1]] + LittleEndian(FromLittleEndian(r[2..6]), 4) + [r[6]];
    assert EncodeSwap(DecodeSwap(b).value) == EncodeVenue(v) + body;
    hide DecodeVenue, EncodeVenue, LittleEndian, FromLittleEndian;
    Reassociate(EncodeVenue(v), body, r[7..]);
  }

  lemma {:induction false} SwapsRoundTrip(swaps: seq<Swap>, rest: bytes)
    ensures DecodeSwaps(|swaps|, EncodeSwaps(swaps) + rest) == Parsed(swaps, rest)
  {
    if swaps != [] {
      var tail := EncodeSwaps(swaps[1..]) + rest;
      assert EncodeSwaps(swaps) + rest == EncodeSwap(swaps[0]) + tail;
      SwapRoundTrip(swaps[0], tail);
      SwapsRoundTrip(swaps[1..], rest);
      assert [swaps[0]] + swaps[1..] == swaps;
    } else {
      assert EncodeSwaps(swaps) + rest == rest;
    }
  }

  lemma {:induction false} SwapsCanonical(count: nat, b: bytes)
    requires DecodeSwaps(count, b).Parsed?
    ensures |DecodeSwaps(count, b).value| == count
    ensures b == EncodeSwaps(DecodeSwaps(count, b).value) + DecodeSwaps(count, b).rest
  {
    hide DecodeSwap, EncodeSwap;
    if count > 0 {
      SwapCanonical(b);
      var swap, r := DecodeSwap(b).value, DecodeSwap(b).rest;
      SwapsCanonical(count - 1, r);
      var swaps, r' := DecodeSwaps(count - 1, r).value, DecodeSwaps(count - 1, r).rest;
      assert ([swap] + swaps)[1..] == swaps;
      Reassociate(EncodeSwap(swap), EncodeSwaps(swaps), r');
    }
  }

  lemma EncodeParts(r: Route, rest: bytes)
    requires |r.swaps| < 0x1_0000_0000
    ensures Encode(r) + rest == EncodeHeader(r.amount, r.mints, |r.swaps|) + (EncodeSwaps(r.swaps) + rest)
  {
    assert |r.swaps| % 0x1_0000_0000 == |r.swaps|;
    hide EncodeHeader, EncodeSwaps;
    Reassociate(EncodeHeader(r.amount, r.mints, |r.swaps|), EncodeSwaps(r.swaps), rest);
  }

  /** What the decoder returns once the legs have been read. */
  lemma DecodeFields(b: bytes, swaps: seq<Swap>, rest: bytes)
    requires |b| >= 14 && b[0] == SWAP_ROUTE_V3_DISCRIMINATOR
    requires DecodeSwaps(FromLittleEndian(b[10..14]), b[14..]) == Parsed(swaps, rest)
    ensures FromLittleEndian(b[1..9]) <= U64_MAX
    ensures Decode(b) == Parsed(Route(FromLittleEndian(b[1..9]), b[9], swaps), rest)
  {
    hide DecodeSwaps;
    NumberFits(b[1..9]);
  }

  /** The fields of an encoded header can be read back, whatever follows it. */
  lemma HeaderFields(amount: u64, mints: u8, count: u32, tail: bytes)
    ensures var b := EncodeHeader(amount, mints, count) + tail;
            && |b| >= 14 && b[0] == SWAP_ROUTE_V3_DISCRIMINATOR && b[9] == mints && b[14..] == tail
            && FromLittleEndian(b[1..9]) == amount && FromLittleEndian(b[10..14]) == count
  {
    var b := EncodeHeader(amount, mints, count) + tail;
    NumberFitsIn(LittleEndian(amount, 8), 8);
    NumberRoundTrip(amount, 8);
    NumberFitsIn(LittleEndian(count, 4), 4);
    NumberRoundTrip(count, 4);
    hide LittleEndian, FromLittleEndian;
    assert b[1..9] == LittleEndian(amount, 8) && b[10..14] == LittleEndian(count, 4);
  }

  /** The layout of a leg: the venue's tag, with a flag for Huma; the two indices; four bytes of
      weight; and the account count. */
  lemma LegLayout(s: Swap)
    ensures var b, w := EncodeSwap(s), LittleEndian(s.weightNanos, 4);
            && (s.venue.RaydiumAmm? ==> b == [0, s.from, s.to, w[0], w[1], w[2], w[3], s.nAccounts])
            && (s.venue.Huma? ==>
                  b == [1, if s.venue.isDeposit then 1 else 0, s.from, s.to, w[0], w[1], w[2], w[3], s.nAccounts])
  {
    hide LittleEndian;
  }

  /** The layout of a route: the tag 42, eight bytes of amount, the number of mints, four bytes
      for the number of legs, and the legs in order. */
  lemma RouteLayout(r: Route)
    requires |r.swaps| < 0x1_0000_0000
    ensures Encode(r)
         == [42] + LittleEndian(r.amount, 8) + [r.mints] + LittleEndian(|r.swaps|, 4) + EncodeSwaps(r.swaps)
    ensures r.swaps != [] ==> EncodeSwaps(r.swaps) == EncodeSwap(r.swaps[0]) + EncodeSwaps(r.swaps[1..])
    ensures r.swaps == [] ==> EncodeSwaps(r.swaps) == []
  {
    hide LittleEndian, EncodeSwap;
  }

  /** The program reads back exactly the route that was encoded, whatever follows it. */
  lemma RouteRoundTrip(r: Route, rest: bytes)
    requires |r.swaps| < 0x1_0000_0000
    ensures Decode(Encode(r) + rest) == Parsed(r, rest)
  {
    hide *;
    var tail := EncodeSwaps(r.swaps) + rest;
    EncodeParts(r, rest);
    SwapsRoundTrip(r.swaps, rest);
    HeaderFields(r.amount, r.mints, |r.swaps|, tail);
    DecodeFields(EncodeHeader(r.amount, r.mints, |r.swaps|) + tail, r.swaps, rest);
  }

  /** The header of accepted data is the encoding of the fields read from it. */
  lemma HeaderCanonical(b: bytes)
    requires Decode(b).Parsed?
    ensures |b| >= 14
    ensures Decode(b).value.amount == FromLittleEndian(b[1..9])
    ensures |Decode(b).value.swaps| == FromLittleEndian(b[10..14]) < 0x1_0000_0000
    ensures b[..14] == EncodeHeader(Decode(b).value.amount, Decode(b).value.mints, |Decode(b).value.swaps|)
    ensures b[14..] == EncodeSwaps(Decode(b).value.swaps) + Decode(b).rest
  {
    hide EncodeSwaps;
    NumberFitsIn(b[10..14], 4);
    NumberCanonical(b[1..9]);
    NumberCanonical(b[10..14]);
    SwapsCanonical(FromLittleEndian(b[10..14]), b[14..]);
    hide DecodeSwaps, FromLittleEndian, LittleEndian;
    assert b[..14] == [b[0]] + b[1..9] + [b[9]] + b[10..14];
  }

  lemma Rejoin(b: bytes, n: nat)
    requires n <= |b|
    ensures b == b[..n] + b[n..]
  {
  }

  /** Whatever the program accepts is the encoding of what it read, followed by the rest. */
  lemma RouteCanonical(b: bytes)
    requires Decode(b).Parsed?
    ensures |Decode(b).value.swaps| < 0x1_0000_0000
    ensures b == Encode(Decode(b).value) + Decode(b).rest
  {
    hide *;
    HeaderCanonical(b);
    EncodeParts(Decode(b).value, Decode(b).rest);
    Rejoin(b, 14);
  }

  /** No encoding is a prefix of another's, and no two routes share one. */
  lemma EncodingIsPrefixFree(r: Route, s: Route, restR: bytes, restS: bytes)
    requires |r.swaps| < 0x1_0000_0000 && |s.swaps| < 0x1_0000_0000
    requires Encode(r) + restR == Encode(s) + restS
    ensures r == s && restR == restS
  {
    RouteRoundTrip(r, restR);
    RouteRoundTrip(s, restS);
  }

  // ------------------------------------------------------------------------------------
  // Venue data
  // ------------------------------------------------------------------------------------

  /** The program rebuilds the venue's own instruction data: whenever a venue builds an
      instruction for a request, it builds the one with the same accounts for any other
      amount, and the data in it is what the program builds for the leg that request maps to
      and that amount. */
  lemma CpiDataAgrees(q: Quoter, r: Request, user: Key, amountIn: u64)
    requires GenerateSwapInstruction(q, r, user).Some?
    ensures GenerateSwapInstruction(q, r.(amount := amountIn), user)
         == Some(GenerateSwapInstruction(q, r, user).value.(data := CpiData(ProtocolToVenue(q, r), amountIn)))
  {
  }

  lemma AmountRoundTrip(x: u64)
    ensures FromLittleEndian(LittleEndian(x, 8)) == x
  {
    NumberFitsIn(LittleEndian(0, 8), 8);
    NumberRoundTrip(x, 8);
  }

  /** The layout of a deposit: 34 bytes, the amount, and the commitment with its length. */
  lemma DepositLayout(assets: u64)
    ensures var b := Pack(Deposit(assets));
            && |b| == 34
            && FromLittleEndian(b[8..16]) == assets
            && FromLittleEndian(b[16..20]) == 13
            && (forall i :: 0 <= i < 13 ==> b[20 + i] == "NO_COMMITMENT"[i] as int)
            && b[33] == 0
  {
    var b := Pack(Deposit(assets));
    assert b[8..16] == LittleEndian(assets, 8) && b[16..20] == LittleEndian(13, 4);
    AmountRoundTrip(assets);
    NumberFitsIn(LittleEndian(13, 4), 4);
    NumberRoundTrip(13, 4);
    hide LittleEndian, FromLittleEndian;
    assert b[20..33] == NO_COMMITMENT;
    forall i | 0 <= i < 13
      ensures b[20 + i] == NO_COMMITMENT[i]
    {
      assert b[20..33][i] == b[20 + i];
    }
  }

  /** The layout of an instant withdrawal as the venue builds it: 24 bytes, the shares, and the
      largest fee there is. */
  lemma WithdrawLayout(shares: u64)
    ensures var b := CpiData(Huma(false), shares);
            && |b| == 24
            && FromLittleEndian(b[8..16]) == shares
            && FromLittleEndian(b[16..24]) == U64_MAX
  {
    var b := CpiData(Huma(false), shares);
    assert b[8..16] == LittleEndian(shares, 8) && b[16..24] == LittleEndian(U64_MAX, 8);
    AmountRoundTrip(shares);
    AmountRoundTrip(U64_MAX);
  }

  /** The layout of a constant-product swap: its tag, the amount, and no least output. */
  lemma SwapLayout(amountIn: u64)
    ensures var b := CpiData(RaydiumAmm, amountIn);
            && |b| == 17 && b[0] == 16
            && FromLittleEndian(b[1..9]) == amountIn
            && FromLittleEndian(b[9..17]) == 0
  {
    var b := CpiData(RaydiumAmm, amountIn);
    assert b[1..9] == LittleEndian(amountIn, 8) && b[9..17] == LittleEndian(0, 8);
    AmountRoundTrip(amountIn);
    AmountRoundTrip(0);
  }

  /** The packed bytes determine the instruction and its amounts. */
  lemma PackIsInjective(i: HumaInstruction, j: HumaInstruction)
    requires Pack(i) == Pack(j)
    ensures i == j
  {
    var b := Pack(i);
    assert b[0] == if i.Deposit? then 242 else if i.InstantWithdraw? then 171 else 203;
    assert b[0] == if j.Deposit? then 242 else if j.InstantWithdraw? then 171 else 203;
    match i
    case Deposit(assets) =>
      assert b[8..16] == LittleEndian(assets, 8) && b[8..16] == LittleEndian(j.assets, 8);
      AmountRoundTrip(assets);
      AmountRoundTrip(j.assets);
    case InstantWithdraw(shares, maxFee) =>
      assert b[8..16] == LittleEndian(shares, 8) && b[8..16] == LittleEndian(j.shares, 8);
      assert b[16..24] == LittleEndian(maxFee, 8) && b[16..24] == LittleEndian(j.maxFee, 8);
      AmountRoundTrip(shares);
      AmountRoundTrip(j.shares);
      AmountRoundTrip(maxFee);
      AmountRoundTrip(j.maxFee);
    case CreateLenderAccountsV2 =>
  }

  lemma PackSwapBaseInIsInjective(amountIn: u64, minimum: u64, amountIn': u64, minimum': u64)
    requires PackSwapBaseIn(amountIn, minimum) == PackSwapBaseIn(amountIn', minimum')
    ensures amountIn == amountIn' && minimum == minimum'
  {
    var b := PackSwapBaseIn(amountIn, minimum);
    assert b[1..9] == LittleEndian(amountIn, 8) && b[1..9] == LittleEndian(amountIn', 8);
    assert b[9..17] == LittleEndian(minimum, 8) && b[9..17] == LittleEndian(minimum', 8);
    AmountRoundTrip(amountIn);
    AmountRoundTrip(amountIn');
    AmountRoundTrip(minimum);
    AmountRoundTrip(minimum');
  }

  // ------------------------------------------------------------------------------------
  // Legs
  // ------------------------------------------------------------------------------------

  function Concat(legs: seq<seq<Meta>>): seq<Meta> {
    if legs == [] then [] else legs[0] + Concat(legs[1..])
  }

  /** Accounts taken by the first k legs according to their specs. */
  function AccountsBefore(swaps: seq<Swap>, k: nat): nat
    requires k <= |swaps|
  {
    if k == 0 then 0 else AccountsBefore(swaps, k - 1) + swaps[k - 1].nAccounts
  }

  /** Every spec counts the accounts of its leg. */
  ghost predicate CountsMatch(swaps: seq<Swap>, legs: seq<seq<Meta>>) {
    |swaps| == |legs| && forall i :: 0 <= i < |swaps| ==> swaps[i].nAccounts == |legs[i]|
  }

  lemma {:induction false} ConcatAppend(legs: seq<seq<Meta>>, leg: seq<Meta>)
    ensures Concat(legs + [leg]) == Concat(legs) + leg
  {
    if legs == [] {
      assert Concat([leg]) == leg + Concat([]);
    } else {
      assert (legs + [leg])[1..] == legs[1..] + [leg];
      ConcatAppend(legs[1..], leg);
    }
  }

  lemma {:induction false} ConcatSplit(swaps: seq<Swap>, legs: seq<seq<Meta>>, k: nat)
    requires CountsMatch(swaps, legs) && k <= |legs|
    ensures Concat(legs) == Concat(legs[..k]) + Concat(legs[k..])
    ensures |Concat(legs[..k])| == AccountsBefore(swaps, k)
    decreases k
  {
    if k == 0 {
      assert legs[0..] == legs;
    } else {
      ConcatSplit(swaps, legs, k - 1);
      assert legs[..k] == legs[..k - 1] + [legs[k - 1]];
      ConcatAppend(legs[..k - 1], legs[k - 1]);
      assert legs[k - 1..] == [legs[k - 1]] + legs[k..];
      assert legs[k - 1..][1..] == legs[k..];
    }
  }

  lemma Middle<T>(a: seq<T>, b: seq<T>, c: seq<T>)
    ensures (a + (b + c))[|a|..][..|b|] == b
  {
    assert (a + (b + c))[|a|..] == b + c;
  }

  /** Slicing the concatenated legs by the counts of the specs recovers each leg. */
  lemma LegIsRecovered(swaps: seq<Swap>, legs: seq<seq<Meta>>, prefix: seq<Meta>, k: nat)
    requires CountsMatch(swaps, legs) && k < |legs|
    ensures |prefix| + AccountsBefore(swaps, k) + swaps[k].nAccounts <= |prefix + Concat(legs)|
    ensures (prefix + Concat(legs))[|prefix| + AccountsBefore(swaps, k)..][..swaps[k].nAccounts] == legs[k]
  {
    ConcatSplit(swaps, legs, k);
    assert legs[k..] == [legs[k]] + legs[k + 1..];
    assert legs[k..][1..] == legs[k + 1..];
    var before, after := Concat(legs[..k]), Concat(legs[k + 1..]);
    hide Concat, AccountsBefore;
    Reassociate(prefix, before, legs[k] + after);
    Middle(prefix + before, legs[k], after);
  }

  /** Which requests a venue builds an instruction for, given that it has accounts: the
      constant-product venue any, Huma exact-in ones between its two mints; and its accounts are
      those of the way the request converts. */
  lemma GeneratesIff(q: Quoter, r: Request, user: Key)
    ensures q.RaydiumVenue? ==>
              (GenerateSwapInstruction(q, r, user).Some? <==> q.metas(r.inputMint == q.coinMint, user).Some?)
    ensures q.HumaVenue? ==>
              (GenerateSwapInstruction(q, r, user).Some? <==>
                && r.exactIn
                && (|| (r.inputMint == q.mints.underlying && r.outputMint == q.mints.mode)
                    || (r.inputMint == q.mints.mode && r.outputMint == q.mints.underlying))
                && q.metas(r.inputMint == q.mints.underlying, user).Some?)
    ensures GenerateSwapInstruction(q, r, user).Some? ==>
              var ix := GenerateSwapInstruction(q, r, user).value;
              && ix.programId == q.programId
              && Some(ix.metas)
                 == q.metas(r.inputMint == (if q.RaydiumVenue? then q.coinMint else q.mints.underlying), user)
  {
  }

  /** A leg is built exactly when its venue generates an instruction.  Its spec carries the
      indices and the weight it was asked for, and the venue and direction of the request; its
      accounts are the instruction's, none of them signed by the TitanPDA, and then the program. */
  lemma LegCarriesItsRequest(q: Quoter, r: Request, titan: Key, from: u8, to: u8, weightNanos: u32)
    ensures BuildSwapLeg(q, r, titan, from, to, weightNanos).Some? <==> GenerateSwapInstruction(q, r, titan).Some?
    ensures BuildSwapLeg(q, r, titan, from, to, weightNanos).Some? ==>
              var (spec, accounts) := BuildSwapLeg(q, r, titan, from, to, weightNanos).value;
              var metas := GenerateSwapInstruction(q, r, titan).value.metas;
              && spec.from == from && spec.to == to && spec.weightNanos == weightNanos
              && (q.RaydiumVenue? ==> spec.venue == RaydiumAmm)
              && (q.HumaVenue? ==> spec.venue == Huma(r.inputMint == q.mints.underlying))
              && |accounts| == |metas| + 1
              && accounts[|metas|] == Meta(q.programId, false, false)
              && forall i :: 0 <= i < |metas| ==>
                   accounts[i] == Meta(metas[i].key, metas[i].isSigner && metas[i].key != titan, metas[i].isWritable)
  {
  }

  /** The spec of a built leg counts its accounts exactly when there are at most 255. */
  lemma LegCountIsExactIff(q: Quoter, r: Request, titan: Key, from: u8, to: u8, weightNanos: u32)
    requires BuildSwapLeg(q, r, titan, from, to, weightNanos).Some?
    ensures GenerateSwapInstruction(q, r, titan).Some?
    ensures var (spec, accounts) := BuildSwapLeg(q, r, titan, from, to, weightNanos).value;
            && |accounts| == |GenerateSwapInstruction(q, r, titan).value.metas| + 1
            && (spec.nAccounts == |accounts| <==> |accounts| <= 255)
  {
  }
}
