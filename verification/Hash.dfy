/** The hash function that warmup/wc.c and webserver/server_thread.c share. */
module StringHash {
  /** The loop of hash, in 64-bit arithmetic, over the characters of a C string, as signed values */
  function HashFrom(h: int, name: seq<int>): int
    decreases |name|
  {
    if name == [] then h else HashFrom((h * 33 + name[0]) % 0x1_0000_0000_0000_0000, name[1..])
  }
}
