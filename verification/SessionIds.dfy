/**
  Session ids that may appear in a resume command: `safe_session_id` in
  src/agent.rs, and the pattern scripts/migrate_from_herdr.py keeps equal to it.
*/
module SessionIds {
  predicate IsSafeChar(c: char) {
    'a' <= c <= 'z' || 'A' <= c <= 'Z' || '0' <= c <= '9' || c in {'-', '_', '.', ':', '/'}
  }

  /** A safe id is ASCII, so its length in bytes is its length. */
  predicate SafeSessionId(id: string) {
    id != [] && |id| <= 256 && forall c | c in id :: IsSafeChar(c)
  }
}
