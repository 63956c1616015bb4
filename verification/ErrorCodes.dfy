/** The error codes of the framework: 1000xxxx for the system, 2000xxxx for calls. */
module ErrorCodes {
  import opened Bytes

  const ERROR_FAILED_DESERIALIZE: int32 := 10000003
  const ERROR_FAILED_SERIALIZE: int32 := 10000004
  const ERROR_RPC_CALL_TIMEOUT: int32 := 20000005
  const ERROR_SERVICE_NOT_FOUND: int32 := 20000006
  const ERROR_METHOD_NOT_FOUND: int32 := 20000007
  const ERROR_PARSE_SERVICE_NAME: int32 := 20000008
  const ERROR_RPC_CHANNEL_NOT_INIT: int32 := 20000009
  const ERROR_RPC_CHANNEL_INIT_FAILED: int32 := 20000011
}
