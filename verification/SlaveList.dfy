/**
 * The part of the master's slave record that topology detection and
 * distributed-clock configuration read and write.  Entry 0 of a slave list is
 * the master.  Bitmaps of ports are sets of port numbers 0 to 3.
 */
module SlaveList {

  datatype Slave = Slave(
    topology: nat,
    activeports: set<nat>,
    consumedports: set<nat>,
    parent: nat,
    parentport: nat,
    entryport: nat,
    hasdc: bool,
    DCrtA: int, DCrtB: int, DCrtC: int, DCrtD: int,
    pdelay: int,
    DCnext: nat,
    DCprevious: nat)
}
