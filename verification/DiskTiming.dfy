/** machine/disk.cc: how long a request takes.  The disk turns by one sector every ROTATION_TIME ticks, so the sector
    under the head is known from the time alone. */
module DiskTiming {
  import opened Words

  const ROTATION_TIME := 500
  const SEEK_TIME := 500
  const SECTORS_PER_TRACK := 32
  const NUM_TRACKS := 32
  const NUM_SECTORS := SECTORS_PER_TRACK * NUM_TRACKS

  predicate IsSector(sector: int) {
    0 <= sector < NUM_SECTORS
  }

  /** At time t the head is at the start of a sector that is as far round its track as `sector`. */
  ghost predicate Passes(t: int, sector: int) {
    t % ROTATION_TIME == 0 && (t / ROTATION_TIME) % SECTORS_PER_TRACK == sector % SECTORS_PER_TRACK
  }

  /** The first time from `from` on at which `sector` starts to pass under the head. */
  ghost predicate FirstPass(from: int, sector: int, t: int) {
    from <= t && Passes(t, sector) && forall u :: from <= u && Passes(u, sector) ==> t <= u
  }

  ghost function SeekTicks(oldSector: int, newSector: int): nat {
    var tracks := newSector / SECTORS_PER_TRACK - oldSector / SECTORS_PER_TRACK;
    SEEK_TIME * if tracks < 0 then -tracks else tracks
  }

  /** No time on the same track, the same both ways, and 500 ticks for each track on the way. */
  lemma SeekIs(a: nat, b: nat, c: nat)
    ensures SeekTicks(a, b) == 0 <==> a / 32 == b / 32
    ensures SeekTicks(a, b) == SeekTicks(b, a)
    ensures SeekTicks(a, a + 32) == 500
    ensures a <= b <= c ==> SeekTicks(a, c) == SeekTicks(a, b) + SeekTicks(b, c)
  {
  }

  /** The sectors of a track start at 0, 500 and so on, and again in each turn of 16000 ticks. */
  lemma PassesIff(t: nat, sector: nat)
    ensures Passes(t, sector) <==> t % 16000 == 500 * (sector % 32)
  {
    var q, r := t / 500, t % 500;
    assert t == 500 * q + r;
    var turn, at := q / 32, q % 32;
    assert q == 32 * turn + at;
    assert t == 16000 * turn + (500 * at + r);
    assert 0 <= 500 * at + r < 16000;
    assert t % 16000 == 500 * at + r;
  }

  /** All of `sector` has passed under the head, on the present track, between two times. */
  ghost predicate PassedBetween(start: int, end: int, sector: int) {
    exists t :: start <= t && t + ROTATION_TIME <= end && Passes(t, sector)
  }

  /** A read is served from the track buffer when no seek is needed and the sector has gone by, by the time the head is
      next at a sector's start, since the buffer was begun. */
  ghost predicate Buffered(lastSector: int, bufferInit: int, now: int, newSector: int, writing: bool) {
    && !writing
    && SeekTicks(lastSector, newSector) == 0
    && PassedBetween(bufferInit, DivRoundUp(now, ROTATION_TIME) * ROTATION_TIME, newSector)
  }

  ghost predicate StartsAt(t: int, sector: int) {
    t % 16000 == 500 * (sector % 32)
  }

  /** That is: a read on the track where the head is, of a sector that started, and ended by the next boundary b,
      after the buffer was begun. */
  lemma BufferedIff(lastSector: nat, bufferInit: nat, now: nat, newSector: nat, writing: bool, b: nat)
    requires now <= b < now + 500 && b % 500 == 0
    ensures Buffered(lastSector, bufferInit, now, newSector, writing)
            <==> !writing && lastSector / 32 == newSector / 32
                 && exists t: nat :: bufferInit <= t && t + 500 <= b && StartsAt(t, newSector)
  {
    hide Passes, SeekTicks, DivRoundUp;
    SeekIs(lastSector, newSector, newSector);
    NextBoundary(now, b - now);
    forall t: nat
      ensures Passes(t, newSector) <==> StartsAt(t, newSector)
    {
      PassesIff(t, newSector);
    }
  }

  /** Going round by d sectors, 0 <= d < 32, is the least way to get to a sector. */
  lemma LeastTurn(at: nat, d: nat, goal: nat, later: nat)
    requires d < SECTORS_PER_TRACK && (at + d) % SECTORS_PER_TRACK == goal % SECTORS_PER_TRACK
    requires at <= later && later % SECTORS_PER_TRACK == goal % SECTORS_PER_TRACK
    ensures at + d <= later
  {
  }

  lemma AtBoundary(q: nat)
    ensures (ROTATION_TIME * q) % ROTATION_TIME == 0 && (ROTATION_TIME * q) / ROTATION_TIME == q
  {
  }

  lemma FirstPassIs(from: nat, rotation: nat, d: nat, sector: nat)
    requires rotation < ROTATION_TIME && (from + rotation) % ROTATION_TIME == 0
    requires d < SECTORS_PER_TRACK
    requires ((from + rotation) / ROTATION_TIME + d) % SECTORS_PER_TRACK == sector % SECTORS_PER_TRACK
    ensures FirstPass(from, sector, from + rotation + d * ROTATION_TIME)
  {
    var a := (from + rotation) / ROTATION_TIME;
    var t := from + rotation + d * ROTATION_TIME;
    assert t == ROTATION_TIME * (a + d);
    AtBoundary(a + d);
    forall u | from <= u && Passes(u, sector)
      ensures t <= u
    {
      NotBefore(from, rotation, a, u);
      LeastTurn(a, d, sector, u / ROTATION_TIME);
    }
  }

  lemma NotBefore(from: nat, rotation: nat, a: nat, u: nat)
    requires from + rotation == ROTATION_TIME * a && rotation < ROTATION_TIME && from <= u && u % ROTATION_TIME == 0
    ensures a <= u / ROTATION_TIME && u == ROTATION_TIME * (u / ROTATION_TIME)
  {
  }

  lemma PassedBetweenIff(start: nat, end: nat, d: nat, sector: nat)
    requires start % ROTATION_TIME == 0 && end % ROTATION_TIME == 0
    requires d < SECTORS_PER_TRACK && (start / ROTATION_TIME + d) % SECTORS_PER_TRACK == sector % SECTORS_PER_TRACK
    ensures PassedBetween(start, end, sector) <==> CDiv(end - start, ROTATION_TIME) > d
  {
    var a, b := start / ROTATION_TIME, end / ROTATION_TIME;
    assert start == ROTATION_TIME * a && end == ROTATION_TIME * b;
    assert CDiv(end - start, ROTATION_TIME) == b - a;
    if b - a > d {
      assert Passes(ROTATION_TIME * (a + d), sector);
    }
    if PassedBetween(start, end, sector) {
      var t :| start <= t && t + ROTATION_TIME <= end && Passes(t, sector);
      LeastTurn(a, d, sector, t / ROTATION_TIME);
    }
  }

  lemma NextBoundary(now: nat, rotation: nat)
    requires rotation < ROTATION_TIME && (now + rotation) % ROTATION_TIME == 0
    ensures now + rotation == DivRoundUp(now, ROTATION_TIME) * ROTATION_TIME
  {
    DivRoundUpIsLeast(now, ROTATION_TIME);
  }

  lemma BoundaryIsLeast(now: nat, t: int)
    requires now <= t && t % ROTATION_TIME == 0
    ensures DivRoundUp(now, ROTATION_TIME) * ROTATION_TIME <= t
  {
    hide DivRoundUp;
    DivRoundUpIsLeast(now, ROTATION_TIME);
    var q := t / ROTATION_TIME;
    assert t == ROTATION_TIME * q;
  }

  class Disk {
    var lastSector: int
    var bufferInit: int
    var active: bool

    ghost predicate Valid()
      reads this
    {
      IsSector(lastSector) && 0 <= bufferInit && bufferInit % ROTATION_TIME == 0
    }

    constructor ()
      ensures Valid() && lastSector == 0 && bufferInit == 0 && !active
    {
      lastSector, bufferInit, active := 0, 0, false;
    }

    /** The seek, and how long after it the head is at the start of a sector. */
    method TimeToSeek(newSector: int, now: nat) returns (seek: int, rotation: int)
      requires Valid() && IsSector(newSector)
      ensures 0 <= seek == SeekTicks(lastSector, newSector)
      ensures 0 <= rotation < ROTATION_TIME && (now + seek + rotation) % ROTATION_TIME == 0
    {
      var newTrack, oldTrack := newSector / SECTORS_PER_TRACK, lastSector / SECTORS_PER_TRACK;
      var tracks := newTrack - oldTrack;
      seek := (if tracks < 0 then -tracks else tracks) * SEEK_TIME;
      var over := (now + seek) % ROTATION_TIME;
      rotation := 0;
      if over > 0 {
        rotation := ROTATION_TIME - over;
      }
    }

    static method ModuloDiff(to: nat, from: nat) returns (d: nat)
      ensures d < SECTORS_PER_TRACK && (from + d) % SECTORS_PER_TRACK == to % SECTORS_PER_TRACK
    {
      var toOffset, fromOffset := to % SECTORS_PER_TRACK, from % SECTORS_PER_TRACK;
      d := (toOffset - fromOffset + SECTORS_PER_TRACK) % SECTORS_PER_TRACK;
    }

    /** A buffered read takes one transfer.  Any other request takes until the sector has passed under the head, for the
        first time after the seek. */
    method ComputeLatency(newSector: int, writing: bool, now: nat) returns (latency: int)
      requires Valid() && IsSector(newSector)
      ensures Buffered(lastSector, bufferInit, now, newSector, writing) ==> latency == ROTATION_TIME
      ensures !Buffered(lastSector, bufferInit, now, newSector, writing) ==>
                FirstPass(now + SeekTicks(lastSector, newSector), newSector, now + latency - ROTATION_TIME)
      ensures writing || lastSector / 32 != newSector / 32 ==>
                FirstPass(now + SeekTicks(lastSector, newSector), newSector, now + latency - 500)
      ensures ROTATION_TIME <= latency < SeekTicks(lastSector, newSector) + (SECTORS_PER_TRACK + 1) * ROTATION_TIME
    {
      hide FirstPass, PassedBetween, SeekTicks, Passes;
      SeekIs(lastSector, newSector, newSector);
      var seek, rotation := TimeToSeek(newSector, now);
      var timeAfter := now + seek + rotation;
      if !writing && seek == 0 {
        var d := ModuloDiff(newSector, bufferInit / ROTATION_TIME);
        PassedBetweenIff(bufferInit, timeAfter, d, newSector);
        NextBoundary(now, rotation);
        if CDiv(timeAfter - bufferInit, ROTATION_TIME) > d {
          return ROTATION_TIME;
        }
      }
      var d := ModuloDiff(newSector, timeAfter / ROTATION_TIME);
      FirstPassIs(now + seek, rotation, d, newSector);
      rotation := rotation + d * ROTATION_TIME;
      return seek + rotation + ROTATION_TIME;
    }

    /** The track buffer is begun anew after a seek, at the start of a sector. */
    method UpdateLast(newSector: int, now: nat)
      requires Valid() && IsSector(newSector)
      modifies this`lastSector, this`bufferInit
      ensures Valid() && lastSector == newSector
      ensures var seek := SeekTicks(old(lastSector), newSector);
              bufferInit == if seek == 0 then old(bufferInit) else DivRoundUp(now + seek, ROTATION_TIME) * ROTATION_TIME
    {
      var seek, rotate := TimeToSeek(newSector, now);
      if seek != 0 {
        NextBoundary(now + seek, rotate);
        bufferInit := now + seek + rotate;
      }
      lastSector := newSector;
    }

    /** One request at a time.  The transfer itself is SynchDisks'; this is when its interrupt comes: later than now,
        and not before the buffer was begun. */
    method Request(sector: int, writing: bool, now: nat) returns (ticks: int)
      requires Valid() && IsSector(sector) && !active
      modifies this
      ensures Valid() && active && lastSector == sector && 0 < ticks
      ensures SeekTicks(old(lastSector), sector) == 0 ==> bufferInit == old(bufferInit)
      ensures old(bufferInit) <= now ==> bufferInit <= now + ticks
      ensures old(Buffered(lastSector, bufferInit, now, sector, writing)) ==> ticks == ROTATION_TIME
      ensures !old(Buffered(lastSector, bufferInit, now, sector, writing)) ==>
                FirstPass(now + SeekTicks(old(lastSector), sector), sector, now + ticks - ROTATION_TIME)
    {
      hide PassedBetween, SeekTicks, DivRoundUp;
      ghost var seek := SeekTicks(lastSector, sector);
      ticks := ComputeLatency(sector, writing, now);
      if seek != 0 {
        BoundaryIsLeast(now + seek, now + ticks - ROTATION_TIME);
      }
      active := true;
      UpdateLast(sector, now);
    }

    method HandleInterrupt()
      requires Valid()
      modifies this`active
      ensures Valid() && !active
    {
      active := false;
    }
  }
}
