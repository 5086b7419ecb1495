/**
 The off-chain half of a route: the legs built from venue instructions and the bytes of the
 instruction that carries them, with the decoder the program applies to those bytes.
 */
module SwapRoute {
  import opened Numbers
  import opened Quoting

  type byte = u8
  type bytes = seq<u8>

  /** Which on-chain venue executes a leg. */
  datatype VenueId = RaydiumAmm | Huma(isDeposit: bool)

  /** One leg: the mints it converts between, the share of the balance it spends, and the
      number of accounts it takes, its venue program included. */
  datatype Swap = Swap(venue: VenueId, from: u8, to: u8, weightNanos: u32, nAccounts: u8)

  datatype Meta = Meta(key: Key, isSigner: bool, isWritable: bool)

  const SWAP_ROUTE_V3_DISCRIMINATOR: byte := 42

  // ------------------------------------------------------------------------------------
  // Encoding
  // ------------------------------------------------------------------------------------

  /** The n low bytes of x, least significant first. */
  function LittleEndian(x: nat, n: nat): (b: bytes)
    ensures |b| == n
  {
    if n == 0 then [] else [x % 256] + LittleEndian(x / 256, n - 1)
  }

  function EncodeVenue(v: VenueId): bytes {
    match v
    case RaydiumAmm => [0]
    case Huma(isDeposit) => [1, if isDeposit then 1 else 0]
  }

  function EncodeSwap(s: Swap): bytes {
    EncodeVenue(s.venue) + [s.from, s.to] + LittleEndian(s.weightNanos, 4) + [s.nAccounts]
  }

  function EncodeSwaps(swaps: seq<Swap>): bytes {
    if swaps == [] then [] else EncodeSwap(swaps[0]) + EncodeSwaps(swaps[1..])
  }

  datatype Route = Route(amount: u64, mints: u8, swaps: seq<Swap>)

  function EncodeHeader(amount: u64, mints: u8, count: nat): bytes {
    [SWAP_ROUTE_V3_DISCRIMINATOR] + LittleEndian(amount, 8) + [mints] + LittleEndian(count, 4)
  }

  /** The instruction data; the number of legs is cut to 32 bits. */
  function Encode(r: Route): bytes {
    EncodeHeader(r.amount, r.mints, |r.swaps| % 0x1_0000_0000) + EncodeSwaps(r.swaps)
  }

  lemma Reassociate<T>(a: seq<T>, b: seq<T>, c: seq<T>)
    ensures a + (b + c) == (a + b) + c
  {
  }

  lemma {:induction false} EncodeSwapsAppend(swaps: seq<Swap>, s: Swap)
    ensures EncodeSwaps(swaps + [s]) == EncodeSwaps(swaps) + EncodeSwap(s)
  {
    if swaps == [] {
      assert EncodeSwaps([s]) == EncodeSwap(s) + EncodeSwaps([]);
    } else {
      assert (swaps + [s])[1..] == swaps[1..] + [s];
      EncodeSwapsAppend(swaps[1..], s);
    }
  }

  /** `encode_swap_route_v3_data` */
  method EncodeSwapRouteV3Data(amount: u64, mints: u8, swaps: seq<Swap>) returns (data: bytes)
    ensures data == Encode(Route(amount, mints, swaps))
  {
    hide LittleEndian, EncodeSwap;
    data := [SWAP_ROUTE_V3_DISCRIMINATOR];
    data := data + LittleEndian(amount, 8);
    data := data + [mints];
    data := data + LittleEndian(|swaps| % 0x1_0000_0000, 4);
    ghost var header := data;
    assert header == EncodeHeader(amount, mints, |swaps| % 0x1_0000_0000);
    hide EncodeHeader;
    assert swaps[..0] == [] && header + [] == header;
    for i := 0 to |swaps|
      invariant data == header + EncodeSwaps(swaps[..i])
    {
      EncodeSwapsAppend(swaps[..i], swaps[i]);
      assert swaps[..i + 1] == swaps[..i] + [swaps[i]];
      Reassociate(header, EncodeSwaps(swaps[..i]), EncodeSwap(swaps[i]));
      data := data + EncodeSwap(swaps[i]);
    }
    assert swaps[..|swaps|] == swaps;
  }

  // ------------------------------------------------------------------------------------
  // Decoding, in the program's field order
  // ------------------------------------------------------------------------------------

  /** A decoded value and the bytes left over. */
  datatype Parsed<+T> = Malformed | Parsed(value: T, rest: bytes)

  function FromLittleEndian(b: bytes): nat {
    if b == [] then 0 else b[0] + 256 * FromLittleEndian(b[1..])
  }

  function DecodeVenue(b: bytes): Parsed<VenueId> {
    if b == [] then Malformed
    else if b[0] == 0 then Parsed(RaydiumAmm, b[1..])
    else if b[0] == 1 && |b| >= 2 && b[1] <= 1 then Parsed(Huma(b[1] == 1), b[2..])
    else Malformed
  }

  function Base(n: nat): nat {
    if n == 0 then 1 else 256 * Base(n - 1)
  }

  lemma {:induction false} NumberFitsIn(b: bytes, n: nat)
    requires |b| == n
    ensures FromLittleEndian(b) < Base(n)
    ensures Base(4) == 0x1_0000_0000 && Base(8) == 0x1_0000_0000_0000_0000
  {
    assert Base(2) == 65536;
    assert Base(6) == 0x1_0000_0000_0000;
    if n > 0 {
      NumberFitsIn(b[1..], n - 1);
    }
  }

  lemma NumberFits(b: bytes)
    ensures |b| == 1 ==> FromLittleEndian(b) < 0x100
    ensures |b| == 4 ==> FromLittleEndian(b) < 0x1_0000_0000
    ensures |b| == 8 ==> FromLittleEndian(b) < 0x1_0000_0000_0000_0000
  {
    assert FromLittleEndian([]) == 0;
    if |b| == 1 {
      assert b[1..] == [];
    } else if |b| == 4 {
      NumberFitsIn(b, 4);
    } else if |b| == 8 {
      NumberFitsIn(b, 8);
    }
  }

  function DecodeSwap(b: bytes): Parsed<Swap> {
    match DecodeVenue(b)
    case Malformed => Malformed
    case Parsed(venue, r) =>
      if |r| < 7 then Malformed
      else
        NumberFits(r[2..6]);
        Parsed(Swap(venue, r[0], r[1], FromLittleEndian(r[2..6]), r[6]), r[7..])
  }

  function DecodeSwaps(count: nat, b: bytes): Parsed<seq<Swap>> {
    if count == 0 then Parsed([], b)
    else
      match DecodeSwap(b)
      case Malformed => Malformed
      case Parsed(swap, r) =>
        match DecodeSwaps(count - 1, r)
        case Malformed => Malformed
        case Parsed(swaps, r') => Parsed([swap] + swaps, r')
  }

  /** What the program reads from instruction data. */
  function Decode(b: bytes): Parsed<Route> {
    if |b| < 14 || b[0] != SWAP_ROUTE_V3_DISCRIMINATOR then Malformed
    else
      NumberFits(b[1..9]);
      match DecodeSwaps(FromLittleEndian(b[10..14]), b[14..])
      case Malformed => Malformed
      case Parsed(swaps, r) => Parsed(Route(FromLittleEndian(b[1..9]), b[9], swaps), r)
  }

  // ------------------------------------------------------------------------------------
  // Venue instruction data
  // ------------------------------------------------------------------------------------

  const DEPOSIT_DISCRIMINATOR: bytes := [242, 35, 198, 137, 82, 225, 242, 182]
  const INSTANT_WITHDRAW_DISCRIMINATOR: bytes := [171, 49, 145, 176, 48, 101, 112, 162]

  /** "NO_COMMITMENT" in ASCII */
  const NO_COMMITMENT: bytes := [78, 79, 95, 67, 79, 77, 77, 73, 84, 77, 69, 78, 84]

  const SWAP_BASE_IN_V2_TAG: byte := 16

  const CREATE_LENDER_ACCOUNTS_V2_DISCRIMINATOR: bytes := [203, 52, 185, 231, 192, 74, 121, 108]

  datatype HumaInstruction =
    | Deposit(assets: u64) | InstantWithdraw(shares: u64, maxFee: u64) | CreateLenderAccountsV2

  /** `HumaInstruction::pack`: the discriminator and the Borsh form of the arguments, a string
      being its length in 32 bits and then its bytes. */
  function Pack(i: HumaInstruction): bytes {
    match i
    case Deposit(assets) =>
      DEPOSIT_DISCRIMINATOR + LittleEndian(assets, 8)
      + (LittleEndian(|NO_COMMITMENT|, 4) + NO_COMMITMENT) + [0]
    case InstantWithdraw(shares, maxFee) =>
      INSTANT_WITHDRAW_DISCRIMINATOR + LittleEndian(shares, 8) + LittleEndian(maxFee, 8)
    case CreateLenderAccountsV2 => CREATE_LENDER_ACCOUNTS_V2_DISCRIMINATOR
  }

  /** `AmmInstruction::pack` */
  function PackSwapBaseIn(amountIn: u64, minimumAmountOut: u64): bytes {
    [SWAP_BASE_IN_V2_TAG] + LittleEndian(amountIn, 8) + LittleEndian(minimumAmountOut, 8)
  }

  /** The data the program builds for a leg of this venue. */
  function CpiData(venue: VenueId, amountIn: u64): bytes {
    match venue
    case RaydiumAmm => PackSwapBaseIn(amountIn, 0)
    case Huma(true) => Pack(Deposit(amountIn))
    case Huma(false) => Pack(InstantWithdraw(amountIn, U64_MAX))
  }

  /** `raydium_amm::swap_base_in_v2` of the program */
  method RaydiumSwap(amountIn: u64) returns (data: bytes)
    ensures data == CpiData(RaydiumAmm, amountIn)
  {
    data := [];
    data := data + [SWAP_BASE_IN_V2_TAG];
    data := data + LittleEndian(amountIn, 8);
    data := data + LittleEndian(0, 8);
  }

  /** `huma::swap` of the program */
  method HumaSwap(isDeposit: bool, amountIn: u64) returns (data: bytes)
    ensures data == CpiData(Huma(isDeposit), amountIn)
  {
    data := [];
    if isDeposit {
      data := data + DEPOSIT_DISCRIMINATOR;
      data := data + LittleEndian(amountIn, 8);
      data := data + LittleEndian(|NO_COMMITMENT|, 4);
      data := data + NO_COMMITMENT;
      data := data + [0];
    } else {
      data := data + INSTANT_WITHDRAW_DISCRIMINATOR;
      data := data + LittleEndian(amountIn, 8);
      data := data + LittleEndian(U64_MAX, 8);
    }
  }

  datatype HumaMints = HumaMints(underlying: Key, mode: Key)

  /** The data `generate_swap_instruction` of the Huma venue builds, None where it refuses. */
  function HumaInstructionData(m: HumaMints, r: Request): Option<bytes> {
    if !r.exactIn then None
    else if r.inputMint == m.underlying && r.outputMint == m.mode then Some(Pack(Deposit(r.amount)))
    else if r.inputMint == m.mode && r.outputMint == m.underlying then
      Some(Pack(InstantWithdraw(r.amount, U64_MAX)))
    else None
  }

  // ------------------------------------------------------------------------------------
  // Legs
  // ------------------------------------------------------------------------------------

  /** A venue's swap instruction. */
  datatype Instruction = Instruction(programId: Key, metas: seq<Meta>, data: bytes)

  /** A venue as a source of instructions.  Its accounts depend on which way it converts and
      for which user; there are none before its state is known. */
  datatype Quoter =
    | RaydiumVenue(programId: Key, coinMint: Key, metas: (bool, Key) -> Option<seq<Meta>>)
    | HumaVenue(programId: Key, mints: HumaMints, metas: (bool, Key) -> Option<seq<Meta>>)

  /** The data a venue puts into its instruction, None where it refuses the request. */
  function InstructionData(q: Quoter, r: Request): Option<bytes> {
    match q
    case RaydiumVenue(_, _, _) => Some(PackSwapBaseIn(r.amount, 0))
    case HumaVenue(_, mints, _) => HumaInstructionData(mints, r)
  }

  /** The way a venue converts for a request: from its first token, or to it. */
  predicate Forward(q: Quoter, r: Request) {
    match q
    case RaydiumVenue(_, coinMint, _) => r.inputMint == coinMint
    case HumaVenue(_, mints, _) => r.inputMint == mints.underlying
  }

  /** `generate_swap_instruction` */
  function GenerateSwapInstruction(q: Quoter, r: Request, user: Key): Option<Instruction> {
    var data, metas := InstructionData(q, r), q.metas(Forward(q, r), user);
    if data.None? || metas.None? then None else Some(Instruction(q.programId, metas.value, data.value))
  }

  /** `protocol_to_venue` */
  function ProtocolToVenue(q: Quoter, r: Request): VenueId {
    match q
    case RaydiumVenue(_, _, _) => RaydiumAmm
    case HumaVenue(_, mints, _) => Huma(r.inputMint == mints.underlying)
  }

  function ClearSigner(m: Meta, titan: Key): Meta {
    if m.key == titan then m.(isSigner := false) else m
  }

  /** `assemble_leg_accounts`: the venue's accounts without the TitanPDA's signature, then the
      venue program. */
  function AssembleLegAccounts(metas: seq<Meta>, titan: Key, programId: Key): seq<Meta> {
    seq(|metas|, i requires 0 <= i < |metas| => ClearSigner(metas[i], titan)) + [Meta(programId, false, false)]
  }

  /** `build_swap_leg`, None where the venue refuses; the account count is cut to 8 bits. */
  function BuildSwapLeg(q: Quoter, r: Request, titan: Key, from: u8, to: u8, weightNanos: u32)
    : Option<(Swap, seq<Meta>)>
  {
    match GenerateSwapInstruction(q, r, titan)
    case None => None
    case Some(ix) =>
      var accounts := AssembleLegAccounts(ix.metas, titan, q.programId);
      Some((Swap(ProtocolToVenue(q, r), from, to, weightNanos, |accounts| % 256), accounts))
  }

  /** The metas the program passes on for a leg: its accounts without the trailing program,
      the TitanPDA signing. */
  function DispatchMetas(leg: seq<Meta>, titan: Key): seq<Meta>
    requires leg != []
  {
    seq(|leg| - 1, i requires 0 <= i < |leg| - 1 => leg[i].(isSigner := leg[i].key == titan || leg[i].isSigner))
  }

  /** The venue's own metas with every TitanPDA entry a signer. */
  function TitanSigns(metas: seq<Meta>, titan: Key): seq<Meta> {
    seq(|metas|, i requires 0 <= i < |metas| =>
      if metas[i].key == titan then metas[i].(isSigner := true) else metas[i])
  }

  /** Clearing the signature off-chain and restoring it on-chain yields the venue's metas. */
  lemma DispatchRestoresMetas(metas: seq<Meta>, titan: Key, programId: Key)
    ensures DispatchMetas(AssembleLegAccounts(metas, titan, programId), titan) == TitanSigns(metas, titan)
  {
  }
}
