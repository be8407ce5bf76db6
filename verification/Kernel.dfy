/** What is needed of the kernel: binary semaphores. */
module Kernel {
  /** `k_sem_give` on a semaphore with limit one. */
  function Give(count: nat): nat { if count < 1 then count + 1 else count }
}
