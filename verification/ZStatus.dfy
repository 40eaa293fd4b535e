/** The return codes of the decompressor. */
module ZStatus {
  datatype Status = ZOk | ZStreamEnd | ZDataError | ZMemError | ZBufError
}
