// The per-batch report of run's kevent loop in main.c: of the events kevent
// returned, each whose fflags contain NOTE_WRITE has its file name reported.

module Events {
  import opened Seqs

  /** NOTE_WRITE of <sys/event.h>: the vnode filter's "file was written" flag. */
  const NOTE_WRITE: bv32 := 0x0000_0002

  /**
   * The fields of a struct kevent that the loop reads: the filter flags and
   * udata, which registration set to the watched file's path.
   */
  datatype KEvent = KEvent(fflags: bv32, udata: string)

  predicate IsWrite(e: KEvent)
  {
    e.fflags & NOTE_WRITE != 0
  }

  /** The names reported for a batch: those of the write events, in batch order. */
  function Changed(events: seq<KEvent>): (r: seq<string>)
    ensures |r| <= |events|
  {
    if events == [] then []
    else (if IsWrite(events[0]) then [events[0].udata] else []) + Changed(events[1..])
  }

  /** Reporting two consecutive parts of a batch reports the whole batch. */
  lemma {:induction false} ChangedAppend(a: seq<KEvent>, b: seq<KEvent>)
    ensures Changed(a + b) == Changed(a) + Changed(b)
    decreases |a|
  {
    if a == [] {
      assert a + b == b;
    } else {
      var head := if IsWrite(a[0]) then [a[0].udata] else [];
      assert (a + b)[0] == a[0] && (a + b)[1..] == a[1..] + b;
      ChangedAppend(a[1..], b);
      assert Changed(a + b) == head + (Changed(a[1..]) + Changed(b));
      ConcatAssoc(head, Changed(a[1..]), Changed(b));
    }
  }

  /** A name is reported exactly when some write event of the batch carries it. */
  lemma {:induction false} ChangedMembers(events: seq<KEvent>, name: string)
    ensures name in Changed(events) <==>
      exists i :: 0 <= i < |events| && IsWrite(events[i]) && events[i].udata == name
    decreases |events|
  {
    if events != [] {
      ChangedMembers(events[1..], name);
      if name in Changed(events[1..]) {
        var i :| 0 <= i < |events[1..]| && IsWrite(events[1..][i]) && events[1..][i].udata == name;
        assert events[i + 1] == events[1..][i];
      }
      if exists i :: 0 <= i < |events| && IsWrite(events[i]) && events[i].udata == name {
        var i :| 0 <= i < |events| && IsWrite(events[i]) && events[i].udata == name;
        if i > 0 {
          assert events[1..][i - 1] == events[i];
        }
      }
    }
  }

  /**
   * One pass of the kevent loop after kevent returned nev: -1 is a failed
   * wait and reports nothing (the loop retries); otherwise the first nev
   * events are scanned and the names of the write events reported in order.
   */
  method ReportBatch(events: seq<KEvent>, nev: int) returns (reported: seq<string>)
    requires -1 <= nev <= |events|
    ensures nev == -1 ==> reported == []
    ensures nev >= 0 ==> reported == Changed(events[..nev])
  {
    reported := [];
    if nev == -1 {
      return;
    }
    for i := 0 to nev
      invariant reported == Changed(events[..i])
    {
      if events[i].fflags & NOTE_WRITE != 0 {
        reported := reported + [events[i].udata];
      }
      assert events[..i + 1] == events[..i] + [events[i]];
      ChangedAppend(events[..i], [events[i]]);
    }
  }
}
