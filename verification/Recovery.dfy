/** The file system's own invariant across power failures: the calls keep it among themselves, the log keeps it
  through crashes. */
module Recovery {
  import opened Layout
  import opened FileBytes
  import opened DiskImage
  import S = JournalSafety

  /** The log_writes that no crash has undone are those of transactions one after the other, from what fs0 says to
    something that satisfies ownership. Every call of `Calls`, and each transaction of `FileSystem.Filewrite`,
    logs all blocks it changes, and leaves ownership under the conditions stated there. */
  ghost predicate FromCalls(fs0: Fs, ws: seq<J.Write>) {
    exists ts: seq<Txn>, wss: seq<seq<J.Write>>, fs: Fs :: Produced(fs0, ts, wss, fs) && ws == Flatten(wss)
  }

  ghost predicate Produced(fs0: Fs, ts: seq<Txn>, wss: seq<seq<J.Write>>, fs: Fs) {
    History(fs0, ts, fs) && |wss| == |ts| && Own(fs) && forall k :: 0 <= k < |ts| ==> Carries(wss[k], ts[k])
  }

  ghost predicate Owned(d: J.Disk) {
    Own(Image(d))
  }

  /** What a disk holds of the calls is owned. */
  lemma CallsOwned(d: J.Disk, fs0: Fs, ws: seq<J.Write>)
    requires Holds(d, fs0) && FromCalls(fs0, ws)
    ensures |J.Replay(d, ws)| == FSSIZE && Own(Image(J.Replay(d, ws)))
  {
    hide Own;
    var ts: seq<Txn>, wss: seq<seq<J.Write>>, fs: Fs :| Produced(fs0, ts, wss, fs) && ws == Flatten(wss);
    ReplayHistory(d, fs0, ts, wss, fs);
    ImageOwned(J.Replay(d, ws), fs);
  }

  /** While commit copies, bread shows the log_writes no crash has undone. */
  lemma CopyingShows(disk: J.Disk, es: seq<J.Event>, budget: nat, t: J.State)
    requires J.GoodDisk(disk) && J.Exec(J.Boot(disk), es, budget) == J.Reached(t) && t.phase.Copying?
    ensures |t.mem| == |J.Replay(J.Recovered(disk), t.writes)| == J.FSSIZE
    ensures J.SameHome(J.Replay(J.Recovered(disk), t.writes), t.mem)
  {
    S.ExecInv(disk, es, budget, t);
  }

  lemma StillOwned(fs0: Fs, disk: J.Disk, es: seq<J.Event>, budget: nat, t: J.State)
    requires J.GoodDisk(disk) && J.Exec(J.Boot(disk), es, budget) == J.Reached(t) && t.phase.Copying?
    requires Holds(J.Recovered(disk), fs0) && FromCalls(fs0, t.writes)
    ensures Owned(t.mem)
  {
    hide Own, Image, Holds, FromCalls, J.Exec, J.Boot, J.Recovered, J.GoodDisk;
    CopyingShows(disk, es, budget, t);
    CallsOwned(J.Recovered(disk), fs0, t.writes);
    DiskImage.OfHome(J.Replay(J.Recovered(disk), t.writes), t.mem);
  }

  /** At whatever moment of a run the power fails: if the image the machine booted from is owned, and at each
    commit the log_writes so far are those of finished calls, then recovery finds bitmap, inodes and tables that
    satisfy ownership. */
  lemma OwnedAfterCrash(fs0: Fs, disk: J.Disk, es: seq<J.Event>, budget: nat, s: J.State)
    requires J.GoodDisk(disk) && J.Exec(J.Boot(disk), es, budget) == J.Reached(s)
    requires Holds(J.Recovered(disk), fs0) && Own(fs0)
    requires forall k: nat, t: J.State ::
               k <= |es| && J.Exec(J.Boot(disk), es[..k], budget) == J.Reached(t) && t.phase.Copying?
               ==> FromCalls(fs0, t.writes)
    ensures J.GoodDisk(s.disk) && Own(Image(J.Recovered(s.disk)))
  {
    hide Own, Image, Holds, FromCalls;
    ghost var P := (d: J.Disk) => Owned(d);
    ImageOwned(J.Recovered(disk), fs0);
    forall d: J.Disk, e: J.Disk | |d| == |e| == J.FSSIZE && J.SameHome(d, e) && P(d) ensures P(e) {
      DiskImage.OfHome(d, e);
    }
    forall k: nat, t: J.State | k <= |es| && J.Exec(J.Boot(disk), es[..k], budget) == J.Reached(t) && t.phase.Copying?
      ensures P(t.mem)
    {
      StillOwned(fs0, disk, es[..k], budget, t);
    }
    S.ConsistencySurvives(P, disk, es, budget, s);
  }
}
