/** The one size that all of the PPP stack has to agree on. */
module PppLimits {

  /** The largest payload announced for a frame. */
  const PPP_MRU := 1500
}
