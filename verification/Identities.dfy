/** Identities a server can enrol (crates/gaze-lens-server/src/history.rs, lib.rs). */
module Identities {
  datatype Kind = Principal | Resource

  datatype Identity = Identity(kind: Kind, id: string, generation: string, fingerprint: string)

  const ID_HEX: nat := 32
  const DIGEST_HEX: nat := 64

  predicate Hex(text: string, len: nat) {
    |text| == len && forall i | 0 <= i < |text| :: '0' <= text[i] <= '9' || 'a' <= text[i] <= 'f'
  }

  predicate WfIdentity(v: Identity) {
    Hex(v.id, ID_HEX) && Hex(v.generation, ID_HEX) && Hex(v.fingerprint, DIGEST_HEX)
  }

  predicate DistinctIds(vs: seq<Identity>) {
    forall i, j | 0 <= i < j < |vs| :: vs[i].id != vs[j].id
  }

  /** What an accepted authority file enrols. */
  predicate Requestable(vs: seq<Identity>) {
    (forall i | 0 <= i < |vs| :: WfIdentity(vs[i])) && DistinctIds(vs)
  }
}
