/**
 Password credentials. The stored credential is the text werkzeug's salted
 hash produces; hashing and checking are foreign calls, so they enter the
 model as function-valued parameters. A hasher is supplied per call: two
 calls may salt differently and so produce different digests.
 */
module Credentials {

  /** Turns a plaintext password into the credential that is stored. */
  type Hasher = string -> string

  /** Decides whether a plaintext password matches a stored credential. */
  type Verifier = (string, string) -> bool

  /** The hasher's output is accepted by the verifier for the same plaintext. */
  ghost predicate Agrees(hash: Hasher, verify: Verifier)
  {
    forall p :: verify(p, hash(p))
  }

}
