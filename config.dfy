/** The tuning constants at the top of src/main_stable_backup.js that the core depends on. */
module Config {
  /** Number of stars in the main point field (TOTAL_POINTS). */
  const TotalPoints: nat := 40000
  /** Size of the neighbour cloud highlighted around each word's star (NEIGHBOR_COUNT). */
  const NeighborCount: nat := 250
  /** Bound on the random draws the registry makes for a new word. */
  const MaxAttempts: nat := 1000
  /** Range into which the token id of a word is folded. */
  const TokenRange: nat := 50000
}
