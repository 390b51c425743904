/** Numbers that the board and the stacks it runs fix for every part of the firmware (include/iot_agent.h,
    src/ble_manager.c). */
module Board {
  const GPIO_COUNT := 31
  const UART_COUNT := 2

  /** The connection handle that stands for none. */
  const CONN_HANDLE_NONE := 0xFFFF

  /** The range of a 32-bit counter. */
  const U32 := 0x1_0000_0000
}
