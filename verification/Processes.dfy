/** The process and thread control blocks. */
module Processes {
  import opened Basics

  const NPROCESS: nat := 16
  const NTHREAD_PER_PROCESS: nat := 8
  const NTHREAD: nat := 64
  const RET_ERROR: int := -1

  datatype ProcessState = Unused | Alive | Zombie

  datatype Process = Process(
    pid: nat,
    ppid: Option<nat>,
    state: ProcessState,
    threads: seq<Option<nat>>,
    nthread: nat,
    pageTable: Option<nat>,
    exitStatus: int,
    killed: bool,
    heapSize: nat
  )

  datatype ThreadState = Unused | Embryo | Sleeping | Runnable | Running | Zombie

  datatype Thread = Thread(tid: nat, pid: Option<nat>, state: ThreadState, kstack: nat)
}
