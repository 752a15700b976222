/** File and socket descriptors share one number space in the guest. */
module Descriptors {
  import Files = FileTable
  import Ownership = SocketOwnership

  /** As long as at most 10,000 sockets were inserted, no number names both a file and a socket. */
  lemma NumbersDisjoint(ops: seq<Files.Op>, os: Ownership.Platform, run: seq<Ownership.Event>)
    requires Ownership.Possible(os, Ownership.INIT, run)
    requires Ownership.After(os, Ownership.INIT, run).inserts <= 10_000
    ensures Files.Run(Files.EMPTY_TABLE, ops).files.Keys !!
            Ownership.After(os, Ownership.INIT, run).table.sockets.Keys
  {
    Files.RunKeepsInv(Files.EMPTY_TABLE, ops);
    Ownership.RunNumbered(os, Ownership.INIT, run);
  }

  /** The bound is tight: after 10,000 inserts the next socket gets the first file's number. */
  lemma NextSocketWouldCollide(os: Ownership.Platform, run: seq<Ownership.Event>, file: Files.File, path: Files.LockPath)
    requires Ownership.Possible(os, Ownership.INIT, run)
    requires Ownership.After(os, Ownership.INIT, run).inserts == 10_000
    ensures Ownership.After(os, Ownership.INIT, run).table.nextFd in
            Files.Run(Files.EMPTY_TABLE, [Files.OpenOp(file, path)]).files
  {
    Ownership.RunNumbered(os, Ownership.INIT, run);
    var ops := [Files.OpenOp(file, path)];
    assert ops[1..] == [];
    assert Files.Run(Files.EMPTY_TABLE, ops) == Files.Opened(Files.EMPTY_TABLE, file, path);
  }
}
