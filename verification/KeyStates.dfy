/** Message-key states shared by retention and the live-key oracle (crates/content-keys/src/lib.rs, `KeyState`). */
module KeyStates {
  import opened Prelude

  datatype KeyState =
    | Cached(key: Digest)
    | Locked
    | Shredded
    | Decoy(decoy: Digest)
    | RateLimited
    | Unavailable
}
