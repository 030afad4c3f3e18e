/**
 * The external chat and video provider's user directory. Whether a call
 * reaches the provider is outside the program, so each call takes that
 * outcome as the parameter `reachable`.
 */
module Stream {
  import Users

  /** The identity the provider keeps for a user. */
  datatype Identity = Identity(name: string, image: string)

  class Directory {
    var identities: map<Users.Id, Identity>

    constructor ()
      ensures identities == map[]
    {
      identities := map[];
    }

    /** `upsertStreamUser({ id, name, image })`: succeeds and stores the identity exactly when the provider is reachable. */
    method Upsert(id: Users.Id, name: string, image: string, reachable: bool) returns (ok: bool)
      modifies this
      ensures ok == reachable
      ensures identities == if reachable then old(identities)[id := Identity(name, image)] else old(identities)
    {
      ok := reachable;
      if reachable {
        identities := identities[id := Identity(name, image)];
      }
    }
  }
}
