/** Fixed places and sizes shared by tasks and their stacks. */
module KernelLayout {
  const USER_STACK_TOP: nat := 0x6000_0000_0000
  const DEFAULT_STACK_SIZE_IN_PAGES: nat := 4
}
