/** The constants of mesh_radio.h and address.h that the model uses. */
module MeshConfig {
  import opened Bytes

  const MAX_SENDERS := 50
  const MAX_DATA_LENGTH := 28
  const WEIGHT_THRESHOLD := 30
  const WEIGHT_MAX := 70
  const MAX_HOPS := 15
  const RX_BUFFER_DEPTH := 200
  const PACKET_SIZE := 32

  const COMMAND_PING: byte := 0x01
  const COMMAND_PING_END: byte := 0x02
  const COMMAND_DATA: byte := 0x03

  const BASE_ADDRESS: byte := 0x40
  const TEST_END_ADDRESS: byte := 0x7F
}
