/** LuaJIT's allocator: what its parts share about chunks. */
module AllocChunk {
  type Addr = nat

  const MIN_CHUNK_SIZE: nat := 32
}
