/** The states of a process table slot (UNIX.H). */
module ProcStatus {
  const PTABSIZE := 30

  /** Among them P_ZOMBIE, an exited process, and P_ZOMBIE2, which is not a process but an
      image of a program kept for sharing. */
  datatype Status =
    P_EMPTY | P_RUNNING | P_READY | P_SLEEP | P_XSLEEP | P_PAUSE | P_FORKING | P_WAIT | P_ZOMBIE2 | P_ZOMBIE
}
