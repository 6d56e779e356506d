/** One stream of the receive buffer as a value: segments stored by offset and the
    position up to which the application has read. */
module RcvStream {
  import opened Common
  import opened SortedKeys

  datatype Seg = Seg(data: Bytes, time: nat)

  type Segments = map<int, Seg>

  datatype Stream = Stream(segments: Segments, next: nat, closeAt: Option<nat>)

  const EMPTY_STREAM := Stream(map[], 0, None)

  /** `Panic` stands for the source's data-integrity panics and out-of-range slices. */
  datatype Status = Ok | Duplicate | BufferFull | Panic

  /** The incoming bytes after the part an earlier segment already holds is cut off. */
  datatype Trim = Covered | Clash | Keep(offset: int, data: Bytes)

  ghost function TrimBelow(m: Segments, offset: int, data: Bytes): Trim {
    match PrevKey(m, offset)
    case None => Keep(offset, data)
    case Some(p) =>
      var prevEnd := p + |m[p].data|;
      if prevEnd <= offset then Keep(offset, data)
      else
        var overlap := prevEnd - offset;
        if overlap >= |data| then Covered
        else if m[p].data[offset - p..] != data[..overlap] then Clash
        else Keep(prevEnd, data[overlap..])
  }

  /** Stored segments and incoming bytes once the following segment is dealt with: it is
      dropped when covered, otherwise the incoming bytes stop where it starts. */
  datatype Fit = Fit(segments: Segments, dropped: nat, data: Bytes) | Misfit(segments: Segments, dropped: nat)

  ghost function TrimAbove(m: Segments, offset: int, at: int, data: Bytes): Fit {
    match NextKey(m, offset)
    case None => Fit(m, 0, data)
    case Some(n) =>
      var end, nextData := at + |data|, m[n].data;
      if end <= n then Fit(m, 0, data)
      else if end >= n + |nextData| then
        if n < at || data[n - at..n - at + |nextData|] != nextData then Misfit(m - {n}, |nextData|)
        else Fit(m - {n}, |nextData|, data)
      else if n < at || nextData[..end - n] != data[n - at..] then Misfit(m, 0)
      else Fit(m, 0, data[..n - at])
  }

  /** New state, change of the buffer's size, and what the call returns. */
  datatype Outcome = Outcome(stream: Stream, growth: int, status: Status)

  /** `Insert` on one stream, after the capacity check and the acknowledgement. */
  ghost function Insert(s: Stream, offset: int, data: Bytes, now: nat): Outcome {
    if offset + |data| <= s.next then Outcome(s, 0, Duplicate)
    else if offset in s.segments then
      var stored := |s.segments[offset].data|;
      if |data| <= stored then Outcome(s, 0, Duplicate)
      else Outcome(s.(segments := s.segments[offset := Seg(data, now)]), |data| - stored, Ok)
    else
      match TrimBelow(s.segments, offset, data)
      case Covered => Outcome(s, 0, Duplicate)
      case Clash => Outcome(s, 0, Panic)
      case Keep(at, rest) =>
        match TrimAbove(s.segments, offset, at, rest)
        case Misfit(m, dropped) => Outcome(s.(segments := m), 0 - dropped, Panic)
        case Fit(m, dropped, kept) =>
          Outcome(s.(segments := m[at := Seg(kept, now)]), |kept| - dropped, Ok)
  }

  /** `RemoveOldestInOrder` on one stream: the segment that starts at the read position, if it
      is the lowest one stored. */
  ghost predicate Readable(s: Stream) {
    MinKey(s.segments) == Some(s.next)
  }

  ghost function Read(s: Stream): (Stream, Option<Seg>) {
    if Readable(s) then
      var seg := s.segments[s.next];
      (s.(segments := s.segments - {s.next}, next := s.next + |seg.data|), Some(seg))
    else (s, None)
  }

  function Close(s: Stream, offset: nat): Stream {
    if s.closeAt.Some? then s else s.(closeAt := Some(offset))
  }
}
