/** Log sinks (Logs/src/Sink.cpp): the rotating file and the ring buffer behind the live view. */
module Sinks {
  import opened Types

  // ---------- the ring buffer ----------

  /** Until it wraps the buffer holds the history; afterwards its two parts, swapped, are the end of the history. */
  predicate RingOk<Record(==)>(records: seq<Record>, next: nat, wrapped: bool, history: seq<Record>) {
    && next < |records|
    && if wrapped
       then |history| >= |records| && records[next..] + records[..next] == history[|history| - |records|..]
       else |history| == next && records[..next] == history
  }

  lemma NextIndex(next: nat, capacity: nat)
    requires next < capacity
    ensures (next + 1) % capacity == if next + 1 == capacity then 0 else next + 1
  {
  }

  lemma RingUpdate<Record>(records: seq<Record>, next: nat, record: Record)
    requires next < |records|
    ensures var after := records[next := record];
      && after[..next + 1] == records[..next] + [record]
      && after[next + 1..] + after[..next + 1] == (records[next..] + records[..next])[1..] + [record]
  {
  }

  lemma RingWrite<Record>(records: seq<Record>, next: nat, wrapped: bool, history: seq<Record>, record: Record)
    requires RingOk(records, next, wrapped, history)
    ensures RingOk(records[next := record], (next + 1) % |records|, wrapped
      || next + 1 == |records|, history + [record])
  {
    hide RingOk;
    NextInRing(records, next, wrapped, history);
    NextIndex(next, |records|);
    if wrapped {
      RingWriteWrapped(records, next, history, record);
    } else {
      RingWriteFirst(records, next, history, record);
    }
  }

  lemma NextInRing<Record>(records: seq<Record>, next: nat, wrapped: bool, history: seq<Record>)
    requires RingOk(records, next, wrapped, history)
    ensures next < |records|
  {
  }

  lemma RingWriteFirst<Record>(records: seq<Record>, next: nat, history: seq<Record>, record: Record)
    requires RingOk(records, next, false, history)
    ensures var full := next + 1 == |records|;
      RingOk(records[next := record], if full then 0 else next + 1, full, history + [record])
  {
    var after := records[next := record];
    RingUpdate(records, next, record);
    if next + 1 == |records| {
      assert after[..next + 1] == after && after[0..] + after[..0] == after;
      assert (history + [record])[0..] == history + [record];
    }
  }

  lemma RingWriteWrapped<Record>(records: seq<Record>, next: nat, history: seq<Record>, record: Record)
    requires RingOk(records, next, true, history)
    ensures RingOk(records[next := record], if next + 1 == |records| then 0 else next + 1, true, history + [record])
  {
    var after, n := records[next := record], |records|;
    RingUpdate(records, next, record);
    assert (history + [record])[|history| + 1 - n..] == history[|history| - n..][1..] + [record];
    if next + 1 == n {
      assert after[n..] + after[..n] == after && after[0..] + after[..0] == after;
    }
  }

  class RingBufferSink<Record(0,==)> {
    const records: array<Record>
    var next: nat
    var wrapped: bool
    /** Every record written since the last clear. */
    ghost var history: seq<Record>

    ghost predicate Valid()
      reads this, records
    {
      RingOk(records[..], next, wrapped, history)
    }

    /** A capacity of 0 counts as 1. */
    constructor (capacity: nat)
      ensures Valid() && fresh(records) && history == []
      ensures records.Length == if capacity == 0 then 1 else capacity
    {
      records := new Record[if capacity == 0 then 1 else capacity];
      next, wrapped, history := 0, false, [];
    }

    method Write(record: Record)
      requires Valid()
      modifies this, records
      ensures Valid() && history == old(history) + [record]
    {
      RingWrite(records[..], next, wrapped, history, record);
      NextIndex(next, records.Length);
      ghost var before := records[..];
      records[next] := record;
      assert records[..] == before[next := record];
      history := history + [record];
      next := (next + 1) % records.Length;
      if next == 0 {
        wrapped := true;
      }
    }

    /** Oldest first: the last `capacity` records, or all of them while there are fewer. */
    method Snapshot() returns (out: seq<Record>)
      requires Valid()
      ensures out == history[if |history| < records.Length then 0 else |history| - records.Length..]
    {
      assert records[..][next..] == records[next..] && records[..][..next] == records[..next];
      out := if wrapped then records[next..] + records[..next] else records[..next];
    }

    method Clear()
      requires Valid()
      modifies this
      ensures Valid() && history == []
    {
      next, wrapped, history := 0, false, [];
    }
  }

  // ---------- the rotating file ----------

  type Line = string

  /** A log file: its lines and the time of its last write. */
  datatype File = File(lines: seq<Line>, time: int)

  function Size(lines: seq<Line>): nat {
    if lines == [] then 0 else Size(lines[..|lines| - 1]) + |lines[|lines| - 1]|
  }

  /** The files as a list, newest first: index 0 is the one being written. */
  type Log = seq<File>

  /** All lines, read from the highest index down to 0. */
  function Text(log: Log): seq<Line> {
    if log == [] then [] else Text(log[1..]) + log[0].lines
  }

  /** A newer file was never written before an older one. */
  predicate TimesFall(log: Log) {
    forall i, j | 0 <= i < j < |log| :: log[i].time >= log[j].time
  }

  /** The files that are not past the cutoff; with falling times these come first. */
  function Recent(log: Log, cutoff: int): Log {
    if log == [] || log[0].time < cutoff then [] else [log[0]] + Recent(log[1..], cutoff)
  }

  datatype Limits = Limits(maxBytes: nat, maxFiles: nat, retention: int)

  function Kept(log: Log, limits: Limits): Log
    requires limits.maxFiles >= 1
  {
    if |log| < limits.maxFiles then log else log[..limits.maxFiles - 1]
  }

  /** What a rotation leaves: an empty current file, then the old ones that still fit and are recent enough. */
  function Rotated(log: Log, limits: Limits, now: int): Log
    requires limits.maxFiles >= 1
  {
    var kept := Kept(log, limits);
    [File([], now)] + if limits.retention <= 0 then kept else Recent(kept, now - limits.retention)
  }

  predicate LogOk(log: Log, limits: Limits, now: int) {
    && 1 <= |log| <= limits.maxFiles && TimesFall(log) && log[0].time <= now
    && forall i | 0 <= i < |log| :: Size(log[i].lines) <= limits.maxBytes || |log[i].lines| <= 1
  }

  lemma {:induction false} TextOfPrefix(log: Log, n: nat)
    requires n <= |log|
    ensures SuffixOf(Text(log[..n]), Text(log))
  {
    if n > 0 {
      TextOfPrefix(log[1..], n - 1);
      assert log[..n][1..] == log[1..][..n - 1] && log[..n][0] == log[0];
      var part, whole, last := Text(log[1..][..n - 1]), Text(log[1..]), log[0].lines;
      assert (whole + last)[|whole + last| - |part + last|..] == whole[|whole| - |part|..] + last;
    }
  }

  lemma {:induction false} RecentIsPrefix(log: Log, cutoff: int)
    ensures |Recent(log, cutoff)| <= |log| && Recent(log, cutoff) == log[..|Recent(log, cutoff)|]
  {
    if log != [] && log[0].time >= cutoff {
      RecentIsPrefix(log[1..], cutoff);
    }
  }

  lemma SuffixTrans(a: seq<Line>, b: seq<Line>, c: seq<Line>)
    requires SuffixOf(a, b) && SuffixOf(b, c)
    ensures SuffixOf(a, c)
  {
    assert c[|c| - |b|..][|b| - |a|..] == c[|c| - |a|..];
  }

  lemma SuffixExtended(a: seq<Line>, b: seq<Line>, more: seq<Line>)
    requires SuffixOf(a, b)
    ensures SuffixOf(a + more, b + more)
  {
    assert (b + more)[|b + more| - |a + more|..] == b[|b| - |a|..] + more;
  }

  /** What is left is the front of the list, the newest files. */
  function Remaining(log: Log, limits: Limits, now: int): (n: nat)
    requires limits.maxFiles >= 1
    ensures n <= |log| && n < limits.maxFiles
    ensures Rotated(log, limits, now) == [File([], now)] + log[..n]
  {
    var kept := Kept(log, limits);
    RecentIsPrefix(kept, now - limits.retention);
    var n := if limits.retention <= 0 then |kept| else |Recent(kept, now - limits.retention)|;
    assert kept[..n] == log[..n];
    n
  }

  /** A rotation only loses a front part of the text. */
  lemma RotationKeepsSuffix(log: Log, limits: Limits, now: int)
    requires limits.maxFiles >= 1
    ensures SuffixOf(Text(Rotated(log, limits, now)), Text(log))
  {
    hide Rotated, SuffixOf;
    var n := Remaining(log, limits, now);
    TextOfPrefix(log, n);
    assert Rotated(log, limits, now)[1..] == log[..n];
    assert Text(log[..n]) + [] == Text(log[..n]);
  }

  lemma {:induction false} RecentIsLongest(log: Log, cutoff: int)
    requires TimesFall(log)
    ensures forall i | 0 <= i < |log| :: i < |Recent(log, cutoff)| <==> log[i].time >= cutoff
    decreases log
  {
    if log != [] {
      var rest := log[1..];
      assert forall i | 0 <= i < |rest| :: rest[i] == log[i + 1];
      if log[0].time >= cutoff {
        RecentIsLongest(rest, cutoff);
        forall i | 0 <= i < |log| ensures i < |Recent(log, cutoff)| <==> log[i].time >= cutoff {
          if i > 0 {
            assert log[i] == rest[i - 1];
          }
        }
      }
    }
  }

  /**
   A rotation starts an empty file and moves every other up by one; it drops a file exactly when the count is full or
   the file is past the retention.
   */
  lemma RotationDropsExactly(log: Log, limits: Limits, now: int)
    requires limits.maxFiles >= 1 && TimesFall(log)
    ensures
      var t := Rotated(log, limits, now);
      && 1 <= |t| <= |log| + 1 && t[0] == File([], now) && (forall i | 1 <= i < |t| :: t[i] == log[i - 1])
      && forall i | 0 <= i < |log| ::
           i + 1 < |t| <==> i + 1 < limits.maxFiles && (limits.retention <= 0 || log[i].time >= now - limits.retention)
  {
    hide Rotated, TimesFall;
    var n := Remaining(log, limits, now);
    var t := Rotated(log, limits, now);
    assert forall i | 1 <= i < |t| :: t[i] == log[i - 1];
    SurvivorsAre(log, limits, now);
  }

  lemma SurvivorsAre(log: Log, limits: Limits, now: int)
    requires limits.maxFiles >= 1 && TimesFall(log)
    ensures
      var t := Rotated(log, limits, now);
      forall i | 0 <= i < |log| ::
        i + 1 < |t| <==> i + 1 < limits.maxFiles && (limits.retention <= 0 || log[i].time >= now - limits.retention)
  {
    var kept := Kept(log, limits);
    assert forall i | 0 <= i < |kept| :: kept[i] == log[i];
    RecentIsLongest(kept, now - limits.retention);
    RecentIsPrefix(kept, now - limits.retention);
  }

  lemma RotationKeepsLimits(log: Log, limits: Limits, now: int)
    requires limits.maxFiles >= 1 && LogOk(log, limits, now)
    ensures LogOk(Rotated(log, limits, now), limits, now)
  {
    hide Rotated;
    var n := Remaining(log, limits, now);
    var t := Rotated(log, limits, now);
    assert forall i | 1 <= i < |t| :: t[i] == log[i - 1];
  }

  function Appended(log: Log, line: Line, now: int): Log
    requires log != []
  {
    [File(log[0].lines + [line], now)] + log[1..]
  }

  /** `write`: rotate first when the line would not fit. */
  function Written(log: Log, limits: Limits, line: Line, now: int): Log
    requires log != [] && limits.maxFiles >= 1
  {
    Appended(if Size(log[0].lines) + |line| > limits.maxBytes then Rotated(log, limits, now) else log, line, now)
  }

  lemma SizeSnoc(lines: seq<Line>, line: Line)
    ensures Size(lines + [line]) == Size(lines) + |line|
  {
    assert (lines + [line])[..|lines|] == lines;
  }

  /** A line that fits goes to the end of the current file, and nothing else changes; any other starts a file. */
  lemma WriteRotatesExactly(log: Log, limits: Limits, line: Line, now: int)
    requires log != [] && limits.maxFiles >= 1
    ensures
      var t, fits := Written(log, limits, line, now), Size(log[0].lines) + |line| <= limits.maxBytes;
      && t != [] && t[0] == File(if fits then log[0].lines + [line] else [line], now)
      && t[1..] == if fits then log[1..] else Rotated(log, limits, now)[1..]
  {
    hide Kept, Recent;
    FreshFile(log, limits, now);
    assert [] + [line] == [line];
  }

  /** One write keeps the files within their limits, and their text a suffix of everything written. */
  lemma WriteKeeps(log: Log, limits: Limits, line: Line, now: int, whole: seq<Line>)
    requires limits.maxFiles >= 1 && LogOk(log, limits, now) && SuffixOf(Text(log), whole)
    ensures var t := Written(log, limits, line, now); LogOk(t, limits, now) && SuffixOf(Text(t), whole + [line])
  {
    hide Rotated, Kept, Text, Size;
    var rotates := Size(log[0].lines) + |line| > limits.maxBytes;
    var base := if rotates then Rotated(log, limits, now) else log;
    if rotates {
      RotationKeepsSuffix(log, limits, now);
      RotationKeepsLimits(log, limits, now);
      SuffixTrans(Text(base), Text(log), whole);
      FreshFile(log, limits, now);
    }
    SizeSnoc(base[0].lines, line);
    AppendedText(base, line, now);
    SuffixExtended(Text(base), whole, [line]);
  }

  lemma FreshFile(log: Log, limits: Limits, now: int)
    requires limits.maxFiles >= 1
    ensures Rotated(log, limits, now) != [] && Rotated(log, limits, now)[0].lines == []
  {
  }

  lemma AppendedText(log: Log, line: Line, now: int)
    requires log != []
    ensures Text(Appended(log, line, now)) == Text(log) + [line]
  {
    assert Appended(log, line, now)[1..] == log[1..];
    assert Text(log[1..]) + log[0].lines + [line] == Text(log[1..]) + (log[0].lines + [line]);
  }

  // ---------- whole runs ----------

  /** A line and the time it is written at. */
  datatype Entry = Entry(line: Line, at: int)

  function RunLog(log: Log, limits: Limits, entries: seq<Entry>): Log
    requires log != [] && limits.maxFiles >= 1
    ensures RunLog(log, limits, entries) != []
    decreases entries
  {
    if entries == [] then log
    else Written(RunLog(log, limits, entries[..|entries| - 1]), limits, entries[|entries| - 1].line, entries[|entries| - 1].at)
  }

  function LinesOf(entries: seq<Entry>): (r: seq<Line>)
    ensures |r| == |entries|
  {
    seq(|entries|, i requires 0 <= i < |entries| => entries[i].line)
  }

  predicate Monotone(start: int, entries: seq<Entry>) {
    && (forall i | 0 <= i < |entries| :: start <= entries[i].at)
    && forall i, j | 0 <= i < j < |entries| :: entries[i].at <= entries[j].at
  }

  /**
   After any run of writes and rotations under a clock that never runs back, the files read from the highest
   index down to 0 are a suffix of everything written, and there are never more of them than allowed.
   */
  lemma {:induction false} RunKeepsSuffix(log: Log, limits: Limits, start: int, entries: seq<Entry>)
    requires limits.maxFiles >= 1 && LogOk(log, limits, start) && Monotone(start, entries)
    ensures var t := RunLog(log, limits, entries);
      && SuffixOf(Text(t), Text(log) + LinesOf(entries))
      && |t| <= limits.maxFiles
      && LogOk(t, limits, if entries == [] then start else entries[|entries| - 1].at)
    decreases |entries|
  {
    hide Written, Text, Size, LogOk, SuffixOf;
    NotEmpty(log, limits, start);
    if entries == [] {
      SuffixItself(Text(log));
      WithinLimit(log, limits, start);
      assert Text(log) + LinesOf(entries) == Text(log);
    } else {
      var front, last := entries[..|entries| - 1], entries[|entries| - 1];
      RunKeepsSuffix(log, limits, start, front);
      LaterIsFine(RunLog(log, limits, front), limits, if front == [] then start else front[|front| - 1].at, last.at);
      WriteKeeps(RunLog(log, limits, front), limits, last.line, last.at, Text(log) + LinesOf(front));
      WithinLimit(RunLog(log, limits, entries), limits, last.at);
      assert LinesOf(entries) == LinesOf(front) + [last.line];
      assert Text(log) + LinesOf(front) + [last.line] == Text(log) + LinesOf(entries);
    }
  }

  lemma SuffixItself(a: seq<Line>)
    ensures SuffixOf(a, a)
  {
  }

  lemma WithinLimit(log: Log, limits: Limits, now: int)
    requires LogOk(log, limits, now)
    ensures |log| <= limits.maxFiles
  {
  }

  lemma LaterIsFine(log: Log, limits: Limits, now: int, later: int)
    requires LogOk(log, limits, now) && now <= later
    ensures LogOk(log, limits, later)
  {
  }

  // ---------- the sink over a directory ----------

  datatype Slot = Absent | Present(file: File)

  function At(log: Log, i: int): Slot {
    if 0 <= i < |log| then Present(log[i]) else Absent
  }

  /** The files of the directory by index. */
  function AsSlots(log: Log, n: nat): seq<Slot> {
    seq(n, i => At(log, i))
  }

  /** Files above `gap` have moved up by one, those below have not, and the gap itself is free. */
  function Shifting(kept: Log, gap: nat, n: nat): seq<Slot> {
    seq(n, i => if i < gap then At(kept, i) else if i == gap then Absent else At(kept, i - 1))
  }

  lemma OldestRemoved(log: Log, limits: Limits)
    requires 1 <= |log| <= limits.maxFiles
    ensures AsSlots(log, limits.maxFiles)[limits.maxFiles - 1 := Absent]
      == Shifting(Kept(log, limits), limits.maxFiles - 1, limits.maxFiles)
  {
    var n, kept := limits.maxFiles, Kept(log, limits);
    assert forall i | 0 <= i < n - 1 :: At(kept, i) == At(log, i);
    assert AsSlots(log, n)[n - 1 := Absent] == Shifting(kept, n - 1, n);
  }

  /** One turn of the renaming loop: the target is free. */
  lemma ShiftOne(kept: Log, gap: nat, n: nat)
    requires 0 < gap < n
    ensures var s := Shifting(kept, gap, n);
      && |s| == n && s[gap] == Absent
      && s[gap := s[gap - 1]][gap - 1 := Absent] == Shifting(kept, gap - 1, n)
      && (s[gap - 1] == Absent ==> s == Shifting(kept, gap - 1, n))
  {
  }

  lemma NewCurrent(left: Log, n: nat, f: File)
    requires |left| < n
    ensures Shifting(left, 0, n)[0 := Present(f)] == AsSlots([f] + left, n)
  {
    var a, b := Shifting(left, 0, n)[0 := Present(f)], AsSlots([f] + left, n);
    forall i | 0 <= i < n ensures a[i] == b[i] {
      assert b[i] == At([f] + left, i);
      assert i > 0 ==> At([f] + left, i) == At(left, i - 1);
    }
  }

  class FileSink {
    const limits: Limits
    var slots: seq<Slot>
    var bytesWritten: nat
    ghost var log: Log

    ghost predicate Valid(now: int)
      reads this
    {
      && limits.maxFiles >= 1 && LogOk(log, limits, now)
      && slots == AsSlots(log, limits.maxFiles) && bytesWritten == Size(log[0].lines)
    }

    /** `open`: an existing current file is continued. */
    constructor (limits: Limits, log: Log, now: int)
      requires limits.maxFiles >= 1 && LogOk(log, limits, now)
      ensures Valid(now) && this.limits == limits && this.log == log
    {
      this.limits := limits;
      this.log := log;
      slots := AsSlots(log, limits.maxFiles);
      bytesWritten := Size(log[0].lines);
    }

    method Write(line: Line, now: int)
      requires Valid(now)
      modifies this
      ensures Valid(now) && log == Written(old(log), limits, line, now)
    {
      hide Rotated, LogOk, Size, Text;
      NotEmpty(log, limits, now);
      WriteKeeps(log, limits, line, now, Text(log));
      if bytesWritten + |line| > limits.maxBytes {
        Rotate(now);
      }
      NotEmpty(log, limits, now);
      SizeSnoc(log[0].lines, line);
      AppendSlot(log, limits.maxFiles, line, now);
      slots := slots[0 := Present(File(slots[0].file.lines + [line], now))];
      bytesWritten := bytesWritten + |line|;
      log := Appended(log, line, now);
    }

    /** `std::filesystem::rename`; that it overwrites no file is checked at every call. */
    method Rename(from: nat, to: nat)
      requires from < |slots| && to < |slots| && from != to && slots[to] == Absent
      modifies this`slots
      ensures slots == old(slots)[to := old(slots)[from]][from := Absent]
    {
      slots := slots[to := slots[from]][from := Absent];
    }

    /** `rotateLocked`. */
    method Rotate(now: int)
      requires Valid(now)
      modifies this
      ensures Valid(now) && log == Rotated(old(log), limits, now)
    {
      hide LogOk, Shifting, AsSlots, Size, Recent, Kept;
      var n := limits.maxFiles;
      ghost var kept := Kept(log, limits);
      NotEmpty(log, limits, now);
      KeptIsFront(log, limits, now);
      OldestRemoved(log, limits);
      SlotCount(log, n);
      slots := slots[n - 1 := Absent];
      var index := n - 1;
      while index > 0
        invariant 0 <= index <= n - 1 && slots == Shifting(kept, index, n)
        invariant log == old(log)
      {
        ShiftOne(kept, index, n);
        index := index - 1;
        if slots[index] != Absent {
          Rename(index, index + 1);
        }
      }
      ghost var left := if limits.retention <= 0 then kept else Recent(kept, now - limits.retention);
      if limits.retention > 0 {
        PurgeExpired(now, kept);
        RecentIsPrefix(kept, now - limits.retention);
      }
      NewCurrent(left, n, File([], now));
      SlotCount(left, n);
      RotationKeepsLimits(log, limits, now);
      slots := slots[0 := Present(File([], now))];
      bytesWritten := 0;
      log := Rotated(log, limits, now);
      SizeOfNothing();
    }

    /** `purgeExpiredLocked`. */
    method PurgeExpired(now: int, ghost kept: Log)
      requires |kept| < limits.maxFiles && TimesFall(kept) && slots == Shifting(kept, 0, limits.maxFiles)
      modifies this`slots
      ensures slots == Shifting(Recent(kept, now - limits.retention), 0, limits.maxFiles)
    {
      var cutoff := now - limits.retention;
      for index := 1 to limits.maxFiles
        invariant slots == Purging(kept, cutoff, index, limits.maxFiles)
      {
        if slots[index].Present? && slots[index].file.time < cutoff {
          slots := slots[index := Absent];
        }
      }
      AllPurged(kept, cutoff, limits.maxFiles);
    }
  }

  /** The slots below `index` are rid of their expired files. */
  function Purging(kept: Log, cutoff: int, index: nat, n: nat): seq<Slot> {
    seq(n, i => if i == 0 then Absent
                else if i < index && i - 1 < |kept| && i >= 1 && kept[i - 1].time < cutoff then Absent
                else At(kept, i - 1))
  }

  lemma AllPurged(kept: Log, cutoff: int, n: nat)
    requires TimesFall(kept) && |kept| < n
    ensures Purging(kept, cutoff, n, n) == Shifting(Recent(kept, cutoff), 0, n)
  {
    hide Recent;
    RecentByTime(kept, cutoff);
    var r := Recent(kept, cutoff);
    var a, b := Purging(kept, cutoff, n, n), Shifting(r, 0, n);
    forall i | 1 <= i < n ensures a[i] == b[i] {
      var j := i - 1;
      assert b[i] == At(r, j);
      assert j < |r| ==> r[j] == kept[j];
      assert j < |kept| ==> (j < |r| <==> kept[j].time >= cutoff);
      assert a[i] == if j < |kept| && kept[j].time < cutoff then Absent else At(kept, j);
    }
  }

  lemma NotEmpty(log: Log, limits: Limits, now: int)
    requires LogOk(log, limits, now)
    ensures 1 <= |log| <= limits.maxFiles
  {
  }

  lemma KeptIsFront(log: Log, limits: Limits, now: int)
    requires LogOk(log, limits, now) && limits.maxFiles >= 1
    ensures |Kept(log, limits)| < limits.maxFiles && TimesFall(Kept(log, limits))
  {
  }

  lemma SlotCount(log: Log, n: nat)
    ensures |AsSlots(log, n)| == n && |Shifting(log, 0, n)| == n
  {
  }

  lemma SizeOfNothing()
    ensures Size([]) == 0
  {
  }

  lemma AppendSlot(log: Log, n: nat, line: Line, now: int)
    requires 1 <= |log| <= n
    ensures AsSlots(log, n)[0] == Present(log[0])
    ensures AsSlots(log, n)[0 := Present(File(log[0].lines + [line], now))] == AsSlots(Appended(log, line, now), n)
  {
    var t := Appended(log, line, now);
    assert forall i | 1 <= i < n :: At(t, i) == At(log, i);
    assert AsSlots(log, n)[0 := At(t, 0)] == AsSlots(t, n);
  }

  lemma {:induction false} RecentByTime(log: Log, cutoff: int)
    requires TimesFall(log)
    ensures var r := Recent(log, cutoff);
      && |r| <= |log| && (forall i | 0 <= i < |r| :: r[i] == log[i])
      && (forall i | 0 <= i < |log| :: i < |r| <==> log[i].time >= cutoff)
  {
    if log != [] {
      if log[0].time >= cutoff {
        RecentByTime(log[1..], cutoff);
        assert forall i | 1 <= i < |log| :: log[i] == log[1..][i - 1];
      }
    }
  }
}
