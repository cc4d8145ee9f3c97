/** The underlying macaroons: the versions of the bakery protocol and the caveats. */
module Macaroons {
  import opened Basics

  const VERSION2 := 2
  const VERSION3 := 3
  const LATEST_VERSION := VERSION3

  /** A caveat; a verification id of None is Go's nil. */
  datatype Cav = Cav(id: bytes, verificationId: Option<bytes>, location: string) {
    predicate ThirdParty() {
      verificationId.Some? && |verificationId.value| > 0
    }
  }
}
