/** Fixed-size pages. */
module Paging {
  import opened Bytes

  const PAGE_SIZE: nat := 4096

  type Page = p: seq<byte> | |p| == PAGE_SIZE witness Zeros(4096)
}
