/** Ledger vocabulary: keys, accounts, transactions, calls, and the registry of known programs. */
module Chain {
  import opened Prelude

  /** A 32-byte key, read as a big-endian number, so that `<` is the byte order of the keys. */
  type Pubkey = k: int | 0 <= k < 0x1_0000000000000000_0000000000000000_0000000000000000_0000000000000000

  /** `Pubkey::default()`, which is also the System Program's address. */
  const DEFAULT_KEY: Pubkey := 0
  const SYSTEM_PROGRAM_ID: Pubkey := 0
  const SPL_TOKEN_PROGRAM_ID: Pubkey := 0x06ddf6e1d765a193d9cbe146ceeb79ac1cb485ed5f5b37913a8cf5857eff00a9
  const SPL_TOKEN_2022_PROGRAM_ID: Pubkey := 0x06ddf6e1ee758fde18425dbce46ccddab61afc4d83b90d27febdf928d8a18bfc
  const BPF_LOADER_UPGRADEABLE_PROGRAM_ID: Pubkey := 0x02a8f6914e88a1b0e210153ef763ae2b00c2b93d16c124d2c0537a1004800000
  const DRIFT_V2_PROGRAM_ID: Pubkey := 0x0954dbbe9ec960c98a7a293fe21336966fe180d151ae4b8179561f89854a53f6
  const RAYDIUM_AMM_V4_PROGRAM_ID: Pubkey := 0x4bd949c43602c33f207790ed16a3524ca1b9975cf121a2a90cffec7df8b68acd
  const JUPITER_V6_PROGRAM_ID: Pubkey := 0x0479d55bf231c06eee74c56ece681507fdb1b2dea3f48e5102b1cda256bc138f
  const ORCA_WHIRLPOOL_PROGRAM_ID: Pubkey := 0x0e03685f8e909053e458121c66f5a76aedc7706aa11c82f8aa952a8f2b7879a9
  const SQUADS_V4_PROGRAM_ID: Pubkey := 0x0681c4ce47e22368b8b1555ec887af092efc7efbb66ca3f52fbf68d4ac9cb7a8
  const WSOL_MINT: Pubkey := 0x069b8857feab8184fb687f634618c035dac439dc1aeb3b5598a0f00000000001

  datatype Account = Account(lamports: U64, owner: Pubkey, data: Bytes, executable: bool, rentEpoch: U64)

  /** An instruction as stored in a message: indices into the message's account keys. */
  datatype Instruction = Instruction(programIdIndex: U8, accounts: seq<U8>, data: Bytes)

  datatype Transaction = Transaction(accountKeys: seq<Pubkey>, instructions: seq<Instruction>)

  /** One program invocation; height 1 is a top-level instruction. */
  datatype CpiCall = CpiCall(programId: Pubkey, instructionIndex: nat, stackHeight: U8, accounts: seq<Pubkey>,
                             data: Bytes)

  type Registry = map<Pubkey, string>

  function MainnetRegistry(): (r: Registry)
  {
    map[
      SPL_TOKEN_PROGRAM_ID := "SPL Token",
      SPL_TOKEN_2022_PROGRAM_ID := "SPL Token-2022",
      BPF_LOADER_UPGRADEABLE_PROGRAM_ID := "BPF Loader Upgradeable",
      DRIFT_V2_PROGRAM_ID := "Drift v2",
      RAYDIUM_AMM_V4_PROGRAM_ID := "Raydium AMM v4",
      JUPITER_V6_PROGRAM_ID := "Jupiter V6",
      ORCA_WHIRLPOOL_PROGRAM_ID := "Orca Whirlpool",
      SQUADS_V4_PROGRAM_ID := "Squads v4"
    ]
  }

  lemma KnownPrograms(k: Pubkey)
    ensures k in MainnetRegistry() <==>
      k in {SPL_TOKEN_PROGRAM_ID, SPL_TOKEN_2022_PROGRAM_ID, BPF_LOADER_UPGRADEABLE_PROGRAM_ID, DRIFT_V2_PROGRAM_ID,
            RAYDIUM_AMM_V4_PROGRAM_ID, JUPITER_V6_PROGRAM_ID, ORCA_WHIRLPOOL_PROGRAM_ID, SQUADS_V4_PROGRAM_ID}
  {
  }

  predicate IsTokenProgram(k: Pubkey)
  {
    k == SPL_TOKEN_PROGRAM_ID || k == SPL_TOKEN_2022_PROGRAM_ID
  }

  /** First element, second element, ... of a slice that may be too short. */
  function At<T>(s: seq<T>, i: nat): (r: Option<T>)
  {
    if i < |s| then Some(s[i]) else None
  }
}
