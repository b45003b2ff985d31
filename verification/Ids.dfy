/** The two checks on drop identifiers: the relay's and the storage package's. */
module Ids {
  predicate IdChar(c: char) {
    'a' <= c <= 'z' || 'A' <= c <= 'Z' || '0' <= c <= '9' || c == '-' || c == '_' || c == '.'
  }

  predicate HasDoubleDot(id: string) { exists i :: 0 <= i < |id| - 1 && id[i] == '.' && id[i + 1] == '.' }

  /** relay.validID. */
  predicate RelayId(id: string) {
    && 0 < |id| <= 128
    && (forall i :: 0 <= i < |id| ==> IdChar(id[i]))
    && id != "." && !HasDoubleDot(id)
  }

  /** storage.ValidateID. */
  predicate StorageId(id: string) {
    id != "" && (forall i :: 0 <= i < |id| ==> IdChar(id[i])) && id != "." && id != ".."
  }

  /** The relay takes the storage package's identifiers up to 128 characters without a double dot. */
  lemma RelayIdsAmongStorageIds(id: string)
    ensures RelayId(id) <==> StorageId(id) && |id| <= 128 && !HasDoubleDot(id)
  {
    if id == ".." {
      assert id[0] == '.' && id[1] == '.';
    }
  }
}
