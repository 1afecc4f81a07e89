/**
 The timing of disk requests in machine/disk.cc: seeking, rotation and the track buffer.
 The platter turns by one sector in ROTATION_TIME ticks, so that at a multiple T of it
 sector T / ROTATION_TIME (modulo the track) comes under the head.
 */
module DiskTiming {
  import opened SectorDisks

  const SEEK_TIME := 500
  const ROTATION_TIME := 500
  const SECTORS_PER_TRACK := 32

  // How long the head takes to the track of a sector.
  function Seek(oldSector: nat, newSector: nat): nat
  {
    var newTrack, oldTrack := newSector / SECTORS_PER_TRACK, oldSector / SECTORS_PER_TRACK;
    (if newTrack > oldTrack then newTrack - oldTrack else oldTrack - newTrack) * SEEK_TIME
  }

  // No time on the same track, the same time both ways, and SEEK_TIME more for each track
  // further away.
  lemma SeekMeans(a: nat, b: nat)
    ensures Seek(a, b) == Seek(b, a) && (Seek(a, b) == 0 <==> a / SECTORS_PER_TRACK == b / SECTORS_PER_TRACK)
    ensures a / SECTORS_PER_TRACK <= b / SECTORS_PER_TRACK ==>
      Seek(a, b + SECTORS_PER_TRACK) == Seek(a, b) + SEEK_TIME
  {
    assert (b + SECTORS_PER_TRACK) / SECTORS_PER_TRACK == b / SECTORS_PER_TRACK + 1;
  }

  // And then until the next sector boundary.
  function Rotation(now: nat, seek: nat): nat
  {
    var over := (now + seek) % ROTATION_TIME;
    if over > 0 then ROTATION_TIME - over else 0
  }

  function ModuloDiff(to: nat, from: nat): nat
  {
    (to % SECTORS_PER_TRACK - from % SECTORS_PER_TRACK + SECTORS_PER_TRACK) % SECTORS_PER_TRACK
  }

  // Whether the track buffer has the sector. C's division truncates toward zero.
  predicate Buffered(now: nat, lastSector: nat, bufferInit: nat, newSector: nat, writing: bool)
  {
    var seek := Seek(lastSector, newSector);
    var timeAfter := now + seek + Rotation(now, seek);
    && !writing && seek == 0
    && (if timeAfter >= bufferInit then (timeAfter - bufferInit) / ROTATION_TIME else 0)
       > ModuloDiff(newSector, bufferInit / ROTATION_TIME)
  }

  function ComputeLatency(now: nat, lastSector: nat, bufferInit: nat, newSector: nat, writing: bool): nat
  {
    var seek := Seek(lastSector, newSector);
    var rotation := Rotation(now, seek);
    var timeAfter := now + seek + rotation;
    if Buffered(now, lastSector, bufferInit, newSector, writing) then ROTATION_TIME
    else seek + rotation + ModuloDiff(newSector, timeAfter / ROTATION_TIME) * ROTATION_TIME + ROTATION_TIME
  }

  // At time t a sector has just passed under the head.
  predicate JustPassed(t: int, sector: nat)
  {
    t % ROTATION_TIME == 0 && (t / ROTATION_TIME - 1 - sector) % SECTORS_PER_TRACK == 0
  }

  // Without the buffer a request is done when its sector has just passed, and that is the
  // first time it passes as a whole after the seek.
  lemma LatencyMeans(now: nat, lastSector: nat, bufferInit: nat, newSector: nat, writing: bool)
    requires !Buffered(now, lastSector, bufferInit, newSector, writing)
    ensures var done := now + ComputeLatency(now, lastSector, bufferInit, newSector, writing);
      && JustPassed(done, newSector) && done - ROTATION_TIME >= now + Seek(lastSector, newSector)
      && forall t | JustPassed(t, newSector) && t - ROTATION_TIME >= now + Seek(lastSector, newSector) :: done <= t
  {
    var seek := Seek(lastSector, newSector);
    var n := NextBoundary(now + seek);
    var k := ModuloDiff(newSector, n);
    assert now + ComputeLatency(now, lastSector, bufferInit, newSector, writing) == (n + k + 1) * ROTATION_TIME;
    Turned(newSector, n);
    Passes(newSector, n + k);
    forall t | JustPassed(t, newSector) && t - ROTATION_TIME >= now + seek
      ensures (n + k + 1) * ROTATION_TIME <= t
    {
      FirstPass(newSector, n, t / ROTATION_TIME - 1);
    }
  }

  // The first sector boundary from a time on, counted in sectors.
  lemma NextBoundary(time: nat) returns (n: nat)
    ensures time + Rotation(time, 0) == n * ROTATION_TIME && n == (time + Rotation(time, 0)) / ROTATION_TIME
    ensures (n - 1) * ROTATION_TIME < time <= n * ROTATION_TIME
  {
    n := (time + Rotation(time, 0)) / ROTATION_TIME;
  }

  lemma Passes(sector: nat, at: nat)
    requires (at - sector) % SECTORS_PER_TRACK == 0
    ensures JustPassed((at + 1) * ROTATION_TIME, sector)
  {
  }

  // ModuloDiff turns the platter from one sector to another.
  lemma Turned(to: nat, from: nat)
    ensures ModuloDiff(to, from) < SECTORS_PER_TRACK && (from + ModuloDiff(to, from) - to) % SECTORS_PER_TRACK == 0
  {
  }

  // By no more than it must.
  lemma FirstPass(to: nat, from: nat, at: int)
    requires at >= from && (at - to) % SECTORS_PER_TRACK == 0
    ensures at >= from + ModuloDiff(to, from)
  {
    Turned(to, from);
  }

  // Every latency is positive, and bounded by a full stroke and a full turn: Schedule's
  // assertion on its delay holds.
  lemma LatencyBounds(now: nat, lastSector: nat, bufferInit: nat, newSector: nat, writing: bool)
    requires lastSector < NUM_SECTORS && newSector < NUM_SECTORS
    ensures 500 <= ComputeLatency(now, lastSector, bufferInit, newSector, writing) <= 31999
  {
    var seek := Seek(lastSector, newSector);
    Turned(newSector, (now + seek + Rotation(now, seek)) / ROTATION_TIME);
  }

  // The buffer has a sector exactly when, on the current track, it has passed as a whole
  // since the buffer was started.
  lemma BufferedMeans(now: nat, lastSector: nat, bufferInit: nat, newSector: nat, writing: bool)
    requires bufferInit % ROTATION_TIME == 0 && bufferInit <= now
    ensures Buffered(now, lastSector, bufferInit, newSector, writing) <==>
      && !writing && Seek(lastSector, newSector) == 0
      && exists t :: JustPassed(t, newSector) && bufferInit + ROTATION_TIME <= t <= now + Rotation(now, 0)
  {
    var end, n := now + Rotation(now, 0), bufferInit / ROTATION_TIME;
    var k := ModuloDiff(newSector, n);
    Turned(newSector, n);
    var first := (n + k + 1) * ROTATION_TIME;
    assert JustPassed(first, newSector) && first >= bufferInit + ROTATION_TIME;
    forall t | JustPassed(t, newSector) && bufferInit + ROTATION_TIME <= t <= end
      ensures first <= t
    {
      FirstPass(newSector, n, t / ROTATION_TIME - 1);
    }
    assert (end - bufferInit) / ROTATION_TIME > k <==> first <= end;
  }

  class Disk {
    var lastSector: int
    var bufferInit: int
    var active: bool
    // When the last request is done.
    ghost var due: int

    ghost predicate Valid()
      reads this
    {
      && 0 <= lastSector < NUM_SECTORS && 0 <= bufferInit && bufferInit % ROTATION_TIME == 0
      && bufferInit <= due
    }

    constructor ()
      ensures Valid() && !active && due == 0 && lastSector == 0 && bufferInit == 0
    {
      lastSector, bufferInit, active, due := 0, 0, false, 0;
    }

    method UpdateLast(now: nat, newSector: nat)
      requires Valid() && newSector < NUM_SECTORS
      modifies this`lastSector, this`bufferInit
      ensures lastSector == newSector && bufferInit % ROTATION_TIME == 0
      ensures bufferInit == if Seek(old(lastSector), newSector) == 0 then old(bufferInit)
                            else now + Seek(old(lastSector), newSector) +
                                 Rotation(now, Seek(old(lastSector), newSector))
    {
      var seek := Seek(lastSector, newSector);
      var rotate := Rotation(now, seek);
      if seek != 0 {
        bufferInit := now + seek + rotate;
      }
      lastSector := newSector;
    }

    // ReadRequest and WriteRequest: one at a time. The interrupt is due after the latency.
    method Request(now: nat, sector: nat, writing: bool) returns (ticks: nat)
      requires Valid() && !active && due <= now && sector < NUM_SECTORS
      modifies this
      ensures Valid() && active && due == now + ticks && lastSector == sector
      ensures bufferInit == if Seek(old(lastSector), sector) == 0 then old(bufferInit)
                            else now + Seek(old(lastSector), sector) + Rotation(now, Seek(old(lastSector), sector))
      ensures 500 <= ticks <= 31999
      // the first time that the sector passes as a whole after the seek
      ensures !Buffered(now, old(lastSector), old(bufferInit), sector, writing) ==>
        JustPassed(due, sector) && due - ROTATION_TIME >= now + Seek(old(lastSector), sector) &&
        forall t | JustPassed(t, sector) && t - ROTATION_TIME >= now + Seek(old(lastSector), sector) :: due <= t
      ensures Buffered(now, old(lastSector), old(bufferInit), sector, writing) ==> ticks == ROTATION_TIME
    {
      ticks := ComputeLatency(now, lastSector, bufferInit, sector, writing);
      LatencyBounds(now, lastSector, bufferInit, sector, writing);
      if !Buffered(now, lastSector, bufferInit, sector, writing) {
        LatencyMeans(now, lastSector, bufferInit, sector, writing);
      }
      active := true;
      UpdateLast(now, sector);
      due := now + ticks;
    }

    method HandleInterrupt()
      requires Valid() && active
      modifies this`active
      ensures Valid() && !active
    {
      active := false;
    }
  }
}
