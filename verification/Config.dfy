/** The limits of src/config.rs that the model depends on. */
module Config {

  const MAX_BUFFERED_BYTES := 65536
  const ARRAY_LENGTH_LIMIT_EXCLUSIVE := 1024
  const MAX_ARRAY_DEPTH := 32
}
