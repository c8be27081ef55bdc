/** Consensus constants of the namespace protocol. */
module Protocol {
  const DUST_FLOOR := 1
  const RATE_CAP := 100_000_000
  const REF_SIZE := 200
  const FEE_WINDOW := 10_081
  const MIN_FEE_SAMPLE := 1000

  const LEASE_QUANTUM := 2_419_200
  const BILLING_UNIT := 86_400
  const MAX_LEASE := 31_536_000
  const COMMIT_EXPIRY := 18_000
  const RESERVE_WINDOW := 18_000
  const DIRECT_WINDOW := 7_200
  const REORG_BUFFER := 7_200

  const RESERVE_BURN_BPS := 50
  const RESERVE_PAY_BPS := 50

  const MAX_ANCHOR_AGE := 1024
}
