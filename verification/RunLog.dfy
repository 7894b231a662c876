/** The bounded live log: a buffered writer that compacts its file to head, marker
    and tail, and the reader that shows a bounded window of it. */
module RunLog {
  import opened ByteLines
  import opened Newlines

  const HEAD_BYTES := 64 * 1024
  const COMPACT_MARGIN := 1024 * 1024
  /** The length of the notice in UTF-8. */
  const MARKER_BYTES := 183

  /** `marker` is the notice put where the middle was removed. */
  datatype Config = Config(maxBytes: int, bufferBytes: nat, flushInterval: real, marker: Bytes)

  function HeadSize(limit: nat): (h: nat)
    ensures h <= HEAD_BYTES && 4 * h <= limit && (h == HEAD_BYTES || 4 * (h + 1) > limit)
  {
    if limit / 4 < HEAD_BYTES then limit / 4 else HEAD_BYTES
  }

  function TailSize(marker: Bytes, limit: nat): (t: nat)
    ensures t + HeadSize(limit) <= limit
    ensures t + HeadSize(limit) + |marker| >= limit && (t > 0 ==> t + HeadSize(limit) + |marker| == limit)
  {
    var rest := limit - HeadSize(limit) - |marker|;
    if rest < 0 then 0 else rest
  }

  /** Head, marker and tail of a text longer than the limit. */
  function Window(marker: Bytes, text: Bytes, limit: nat): Bytes
    requires |text| > limit
  {
    text[..HeadSize(limit)] + marker + text[|text| - TailSize(marker, limit)..]
  }

  /** `read_run_log`, before decoding; a whole file is read as text, a window as bytes. */
  function ReadLog(marker: Bytes, file: Bytes, limit: int): Bytes {
    if limit <= 0 || |file| <= limit then Normalized(file) else Window(marker, file, limit)
  }

  // ---- the shape of the file ----

  /** The file is the head of the stream, the marker, and all of the stream from k on. */
  predicate Bounded(cfg: Config, file: Bytes, stream: Bytes, k: nat) {
    && cfg.maxBytes > 0 && |stream| > cfg.maxBytes + COMPACT_MARGIN
    && HeadSize(cfg.maxBytes) + COMPACT_MARGIN < k <= |stream| - TailSize(cfg.marker, cfg.maxBytes)
    && file == stream[..HeadSize(cfg.maxBytes)] + cfg.marker + stream[k..]
  }

  ghost predicate Shape(cfg: Config, file: Bytes, stream: Bytes) {
    file == stream || exists k: nat :: Bounded(cfg, file, stream, k)
  }

  /** Writing more keeps the shape. */
  lemma ShapeExtends(cfg: Config, file: Bytes, stream: Bytes, more: Bytes)
    requires Shape(cfg, file, stream)
    ensures Shape(cfg, file + more, stream + more)
  {
    if file != stream {
      var k: nat :| Bounded(cfg, file, stream, k);
      BoundedExtends(cfg, file, stream, k, more);
    }
  }

  lemma BoundedExtends(cfg: Config, file: Bytes, stream: Bytes, k: nat, more: Bytes)
    requires Bounded(cfg, file, stream, k)
    ensures Bounded(cfg, file + more, stream + more, k)
  {
    hide HeadSize, TailSize;
    var h := HeadSize(cfg.maxBytes);
    assert (stream + more)[..h] == stream[..h];
    assert (stream + more)[k..] == stream[k..] + more;
    Assoc(stream[..h] + cfg.marker, stream[k..], more);
  }

  lemma SizesGrow(marker: Bytes, small: nat, large: nat)
    requires small <= large
    ensures HeadSize(small) <= HeadSize(large) && TailSize(marker, small) <= TailSize(marker, large)
  {
  }

  /** Any window of the file is the same window of everything that was ever written. */
  lemma WindowOfShape(cfg: Config, file: Bytes, stream: Bytes, limit: nat)
    requires Shape(cfg, file, stream) && limit <= cfg.maxBytes && |file| > limit
    ensures |stream| > limit && Window(cfg.marker, file, limit) == Window(cfg.marker, stream, limit)
  {
    if file != stream {
      var k: nat :| Bounded(cfg, file, stream, k);
      SizesGrow(cfg.marker, limit, cfg.maxBytes);
      Ends(stream, k, HeadSize(cfg.maxBytes), cfg.marker, HeadSize(limit), TailSize(cfg.marker, limit));
    }
  }

  lemma Ends(stream: Bytes, k: nat, h: nat, marker: Bytes, head: nat, tail: nat)
    requires head <= h <= |stream| && k + tail <= |stream|
    ensures var file := stream[..h] + marker + stream[k..];
      && |file| >= h + tail
      && file[..head] == stream[..head] && file[|file| - tail..] == stream[|stream| - tail..]
  {
  }

  /** Compacting a file that was compacted before is compacting the whole stream once. */
  lemma CompactionIsOne(cfg: Config, file: Bytes, stream: Bytes)
    requires Shape(cfg, file, stream) && cfg.maxBytes > 0 && |file| > cfg.maxBytes + COMPACT_MARGIN
    ensures |stream| > cfg.maxBytes
    ensures Window(cfg.marker, file, cfg.maxBytes) == Window(cfg.marker, stream, cfg.maxBytes)
    ensures Shape(cfg, Window(cfg.marker, file, cfg.maxBytes), stream)
  {
    WindowOfShape(cfg, file, stream, cfg.maxBytes);
    var tail := TailSize(cfg.marker, cfg.maxBytes);
    assert Bounded(cfg, Window(cfg.marker, stream, cfg.maxBytes), stream, |stream| - tail);
  }

  lemma BoundedIsLong(cfg: Config, file: Bytes, stream: Bytes)
    requires Shape(cfg, file, stream) && file != stream
    ensures |file| >= cfg.maxBytes && |stream| > cfg.maxBytes > 0
    ensures |file| == cfg.maxBytes ==> file == Window(cfg.marker, stream, cfg.maxBytes)
  {
    var k: nat :| Bounded(cfg, file, stream, k);
    assert |file| == HeadSize(cfg.maxBytes) + |cfg.marker| + (|stream| - k);
  }

  /** The reader's limits the settings can combine with the writer's: any up to it, and any
      at all once the head has its full size. */
  predicate Combinable(cfg: Config, limit: int) {
    limit <= cfg.maxBytes || cfg.maxBytes >= 4 * HEAD_BYTES
  }

  /** Whether the compacted file reads like the whole stream: it is longer than the limit, or
      exactly as long and without a CR. */
  predicate ReadsAlike(file: Bytes, limit: int) {
    0 < limit <= |file| && (|file| == limit ==> CR !in file)
  }

  /** For every limit: a reader sees the file as if nothing had ever been compacted, exactly
      when nothing was, or the file is longer than the limit, or exactly as long and without
      a CR. A file of the limit's size is read as text, so its CRs are translated, where the
      window of the full stream keeps them; a shorter file is shown whole, where the full
      stream would show another window. */
  lemma CompactionIsInvisible(cfg: Config, file: Bytes, stream: Bytes, limit: int)
    requires Shape(cfg, file, stream) && |cfg.marker| == MARKER_BYTES && Combinable(cfg, limit)
    ensures ReadLog(cfg.marker, file, limit) == ReadLog(cfg.marker, stream, limit)
      <==> file == stream || ReadsAlike(file, limit)
  {
    hide Normalized, Window, Shape, HeadSize, TailSize;
    if file != stream {
      BoundedIsLong(cfg, file, stream);
      if limit <= 0 || |file| < limit {
        WholeFileDiffers(cfg, file, stream);
        NormalizedLength(file);
        if 0 < limit < |stream| {
          WindowIsFull(cfg.marker, stream, limit);
        }
      } else if |file| > limit {
        LongerFile(cfg, file, stream, limit);
      } else {
        ExactFile(cfg, file, stream);
        NormalizedIdentity(file);
      }
    }
  }

  lemma WindowIsFull(marker: Bytes, text: Bytes, limit: nat)
    requires |text| > limit
    ensures |Window(marker, text, limit)| >= limit
  {
  }

  lemma LongerFile(cfg: Config, file: Bytes, stream: Bytes, limit: nat)
    requires Shape(cfg, file, stream) && file != stream && limit < |file|
    requires |cfg.marker| == MARKER_BYTES && Combinable(cfg, limit)
    ensures |stream| > limit && Window(cfg.marker, file, limit) == Window(cfg.marker, stream, limit)
  {
    if limit <= cfg.maxBytes {
      WindowOfShape(cfg, file, stream, limit);
    } else {
      var k: nat :| Bounded(cfg, file, stream, k);
      Ends(stream, k, HeadSize(cfg.maxBytes), cfg.marker, HeadSize(limit), TailSize(cfg.marker, limit));
    }
  }

  lemma ExactFile(cfg: Config, file: Bytes, stream: Bytes)
    requires Shape(cfg, file, stream) && file != stream
    requires |cfg.marker| == MARKER_BYTES && Combinable(cfg, |file|)
    ensures |stream| > |file| && Window(cfg.marker, stream, |file|) == file
  {
    var k: nat :| Bounded(cfg, file, stream, k);
    var h := HeadSize(cfg.maxBytes);
    assert |file| == h + |cfg.marker| + (|stream| - k);
    if |file| <= cfg.maxBytes {
      BoundedIsLong(cfg, file, stream);
    } else {
      assert HeadSize(|file|) == h && TailSize(cfg.marker, |file|) == |stream| - k;
    }
  }

  /** Read whole, the compacted file is shorter than the stream, line ends translated or not. */
  lemma WholeFileDiffers(cfg: Config, file: Bytes, stream: Bytes)
    requires Shape(cfg, file, stream) && file != stream && |cfg.marker| == MARKER_BYTES
    ensures |Normalized(file)| < |Normalized(stream)|
  {
    hide Normalized;
    var k: nat :| Bounded(cfg, file, stream, k);
    var h := HeadSize(cfg.maxBytes);
    var head, middle, tail := stream[..h], stream[h..k], stream[k..];
    assert stream == head + middle + tail;
    NormalizedJoin(head, middle);
    NormalizedJoin(head + middle, tail);
    NormalizedJoin(head, cfg.marker);
    NormalizedJoin(head + cfg.marker, tail);
    NormalizedLength(middle);
    NormalizedLength(cfg.marker);
  }

  /** The newest bytes: the last n bytes written are the last n bytes of the file. */
  lemma NewestKept(cfg: Config, file: Bytes, stream: Bytes, buffer: Bytes, n: nat)
    requires Shape(cfg, file, stream)
    requires n <= if file == stream then |stream| else TailSize(cfg.marker, cfg.maxBytes)
    ensures n <= |file| && n <= |stream|
    ensures file[|file| - n..] + buffer == (stream + buffer)[|stream| - n..]
    ensures file == stream || (exists h: nat :: h == HeadSize(cfg.maxBytes) && h <= |file| && file[..h] == stream[..h])
  {
    if file != stream {
      var k: nat :| Bounded(cfg, file, stream, k);
      Ends(stream, k, HeadSize(cfg.maxBytes), cfg.marker, HeadSize(cfg.maxBytes), n);
    }
    assert (stream + buffer)[|stream| - n..] == stream[|stream| - n..] + buffer;
  }

  /** Both exceptions do occur: a compaction leaves exactly the writer's limit, so right after
      it a reader with that limit sees translated newlines, and a reader with a larger one,
      such as the default view of 2 MiB of a log limited to 1 MiB, another window. */
  lemma FreshCompaction(cfg: Config, stream: Bytes, larger: nat)
    requires cfg.maxBytes > 0 && |stream| > cfg.maxBytes + COMPACT_MARGIN && |cfg.marker| == MARKER_BYTES
    requires HeadSize(cfg.maxBytes) + |cfg.marker| <= cfg.maxBytes
    requires larger > cfg.maxBytes && Combinable(cfg, larger)
    ensures var file := Window(cfg.marker, stream, cfg.maxBytes);
      && Shape(cfg, file, stream) && |file| == cfg.maxBytes
      && (ReadLog(cfg.marker, file, cfg.maxBytes) == ReadLog(cfg.marker, stream, cfg.maxBytes) <==> CR !in file)
      && ReadLog(cfg.marker, file, larger) != ReadLog(cfg.marker, stream, larger)
  {
    hide Normalized, ReadLog;
    CompactionIsOne(cfg, stream, stream);
    var file := Window(cfg.marker, stream, cfg.maxBytes);
    CompactionIsInvisible(cfg, file, stream, cfg.maxBytes);
    CompactionIsInvisible(cfg, file, stream, larger);
  }

  // ---- the writer ----

  /** What the operating system does during one flush: opening the file and asking for its
      size at the start, the two steps of a compaction, and reopening after it. */
  datatype Io = Io(opens: bool, sizeKnown: bool, statOk: bool, rewriteOk: bool, reopens: bool, resizeKnown: bool)

  const FINE := Io(true, true, true, true, true, true)

  class RunLogWriter {
    const cfg: Config
    /** The content of the file on disk. */
    var file: Bytes
    var buffer: Bytes
    var open: bool
    var writtenSize: nat
    var lastFlush: real
    var closed: bool
    /** Everything ever written to the file, and everything accepted so far. */
    ghost var stream: Bytes
    ghost var accepted: Bytes

    ghost predicate Valid()
      reads this
    {
      && Shape(cfg, file, stream) && accepted == stream + buffer
      && cfg.bufferBytes >= 4096 && cfg.flushInterval >= 0.0 && |cfg.marker| == MARKER_BYTES
      && (closed ==> buffer == [])
    }

    /** The size the writer believes in is the real one. */
    predicate Sized()
      reads this
    {
      writtenSize == |file|
    }

    predicate WithinBound()
      reads this
    {
      cfg.maxBytes > 0 ==> |file| <= cfg.maxBytes + COMPACT_MARGIN
    }

    /** Opens the log of a run, which an earlier writer may have left on disk. */
    constructor (maxBytes: int, bufferBytes: int, flushInterval: real, marker: Bytes,
                 existing: Bytes, ghost written: Bytes, sizeKnown: bool, now: real)
      requires |marker| == MARKER_BYTES
      requires Shape(Config(maxBytes, if bufferBytes > 4096 then bufferBytes else 4096,
                            if flushInterval > 0.0 then flushInterval else 0.0, marker), existing, written)
      ensures Valid() && file == existing && accepted == written && buffer == [] && open && !closed
      ensures cfg.maxBytes == maxBytes && cfg.marker == marker && (sizeKnown ==> Sized())
      ensures cfg.bufferBytes >= bufferBytes && (cfg.bufferBytes == bufferBytes || cfg.bufferBytes == 4096)
      ensures cfg.flushInterval >= flushInterval && (cfg.flushInterval == flushInterval || cfg.flushInterval == 0.0)
      ensures lastFlush == now
    {
      cfg := Config(maxBytes, if bufferBytes > 4096 then bufferBytes else 4096,
                    if flushInterval > 0.0 then flushInterval else 0.0, marker);
      file, buffer, lastFlush, closed := existing, [], now, false;
      open, writtenSize := true, if sizeKnown then |existing| else 0;
      stream, accepted := written, written;
      new;
      assert written + [] == written;
    }

    method Open(opens: bool, sizeKnown: bool) returns (raised: bool)
      requires !open
      modifies this`open, this`writtenSize
      ensures raised == !opens && open == opens
      ensures opens && sizeKnown ==> Sized()
    {
      if !opens {
        return true;
      }
      open := true;
      writtenSize := if sizeKnown then |file| else 0;
      return false;
    }

    /** `_compact_run_log`. */
    method Compact(statOk: bool, rewriteOk: bool)
      requires Shape(cfg, file, stream) && |cfg.marker| == MARKER_BYTES
      modifies this`file
      ensures Shape(cfg, file, stream)
      ensures file == old(file) ||
        (cfg.maxBytes > 0 && |stream| > cfg.maxBytes && file == Window(cfg.marker, stream, cfg.maxBytes))
      ensures statOk && rewriteOk ==> WithinBound()
    {
      if cfg.maxBytes <= 0 || !statOk || |file| <= cfg.maxBytes + COMPACT_MARGIN || !rewriteOk {
        return;
      }
      var headSize := HeadSize(cfg.maxBytes);
      var head := file[..headSize];
      var tailSize := TailSize(cfg.marker, cfg.maxBytes);
      var tail := if tailSize > 0 then file[|file| - tailSize..] else [];
      CompactionIsOne(cfg, file, stream);
      assert tailSize == 0 ==> file[|file| - tailSize..] == [];
      file := head + cfg.marker + tail;
    }

    method Flush(io: Io, now: real) returns (raised: bool)
      requires Valid()
      modifies this
      ensures Valid() && closed == old(closed) && accepted == old(accepted)
      ensures old(closed) || old(buffer) == [] ==>
        && !raised && file == old(file) && buffer == old(buffer) && stream == old(stream)
        && open == old(open) && writtenSize == old(writtenSize)
      ensures io == FINE && old(open) ==> open
      ensures !old(closed) && old(buffer) != [] ==>
        raised || (buffer == [] && stream == old(accepted) && lastFlush == now)
      ensures raised ==> !io.opens || !io.reopens
      ensures file == old(file) + old(buffer) || file == old(file)
        || (cfg.maxBytes > 0 && |stream| > cfg.maxBytes && file == Window(cfg.marker, stream, cfg.maxBytes))
      ensures !raised && !old(closed) && old(open) &&
              old(Sized()) && |old(file)| + |old(buffer)| <= cfg.maxBytes + COMPACT_MARGIN
        ==> file == old(file) + old(buffer)
      ensures io == FINE && (old(Sized()) || !old(open)) && old(buffer) != [] && !old(closed) ==>
        Sized() && WithinBound()
    {
      hide Shape, Window, HeadSize, TailSize;
      if closed || buffer == [] {
        assert buffer == [] ==> file + buffer == file;
        return false;
      }
      if !open {
        raised := Open(io.opens, io.sizeKnown);
        if raised {
          return;
        }
      }
      ShapeExtends(cfg, file, stream, buffer);
      assert stream + buffer + [] == stream + buffer;
      file, stream := file + buffer, stream + buffer;
      writtenSize := writtenSize + |buffer|;
      buffer := [];
      lastFlush := now;
      raised := false;
      if cfg.maxBytes > 0 && writtenSize > cfg.maxBytes + COMPACT_MARGIN {
        open := false;
        Compact(io.statOk, io.rewriteOk);
        raised := Open(io.reopens, io.resizeKnown);
      }
    }

    method AppendBytes(data: Bytes, io: Io, now: real) returns (raised: bool)
      requires Valid()
      modifies this
      ensures Valid() && closed == old(closed)
      ensures accepted == if old(closed) then old(accepted) else old(accepted) + data
      ensures !raised && !old(closed) && data != [] ==>
        |buffer| < cfg.bufferBytes && (now - old(lastFlush) >= cfg.flushInterval ==> buffer == [])
      ensures !old(closed) && |old(buffer)| + |data| < cfg.bufferBytes && now - old(lastFlush) < cfg.flushInterval ==>
        buffer == old(buffer) + data && file == old(file) && !raised
      ensures raised ==> !io.opens || !io.reopens
      ensures io == FINE && old(Sized()) && old(open) && old(WithinBound()) ==> Sized() && open && WithinBound()
    {
      if closed || data == [] {
        assert accepted + [] == accepted && buffer + [] == buffer;
        return false;
      }
      Assoc(stream, buffer, data);
      buffer := buffer + data;
      accepted := accepted + data;
      raised := false;
      if |buffer| >= cfg.bufferBytes || now - lastFlush >= cfg.flushInterval {
        raised := Flush(io, now);
      }
    }

    method FlushIfDue(io: Io, now: real) returns (flushed: bool, raised: bool)
      requires Valid()
      modifies this
      ensures Valid() && closed == old(closed) && accepted == old(accepted)
      ensures flushed <==> !old(closed) && old(buffer) != [] && now - old(lastFlush) >= cfg.flushInterval
      ensures flushed && !raised ==> buffer == []
      ensures raised ==> !io.opens || !io.reopens
      ensures !flushed ==> !raised && file == old(file) && buffer == old(buffer)
      ensures io == FINE && old(Sized()) && old(open) && old(WithinBound()) ==> Sized() && open && WithinBound()
    {
      if closed || buffer == [] || now - lastFlush < cfg.flushInterval {
        return false, false;
      }
      raised := Flush(io, now);
      return true, raised;
    }

    method Close(io: Io, now: real) returns (raised: bool)
      requires Valid()
      modifies this
      ensures Valid() && accepted == old(accepted)
      ensures !raised ==> closed && stream == accepted && (old(closed) || !open)
      ensures raised ==> !io.opens || !io.reopens
      ensures io == FINE && old(Sized()) && old(open) && old(WithinBound()) ==> WithinBound()
    {
      assert stream + [] == stream;
      if closed {
        return false;
      }
      raised := Flush(io, now);
      if raised {
        return;
      }
      assert stream + [] == stream;
      open := false;
      closed := true;
    }
  }

  // ---- a whole run ----

  datatype Event = Append(data: Bytes, io: Io, now: real) | FlushDue(io: Io, now: real) | FlushNow(io: Io, now: real)

  function Data(events: seq<Event>): Bytes {
    FlatMap((e: Event) => if e.Append? then e.data else [], events)
  }

  predicate AllFine(events: seq<Event>) {
    forall e :: e in events ==> e.io == FINE
  }

  /** One writer's life, from opening a log that holds the start of a run to closing it.
      Whatever was flushed when, and however often the file was compacted, a reader sees
      what the uncompacted log would show exactly under the condition of
      `CompactionIsInvisible`; without failures the file ends within its bound. */
  method WriteRun(maxBytes: int, bufferBytes: int, flushInterval: real, marker: Bytes, existing: Bytes,
                  events: seq<Event>, closing: Io, now: real)
      returns (file: Bytes, raised: bool)
    requires |marker| == MARKER_BYTES
    ensures !raised ==> forall limit: int :: limit <= maxBytes || maxBytes >= 4 * HEAD_BYTES ==>
      var all := existing + Data(events);
      (ReadLog(marker, file, limit) == ReadLog(marker, all, limit) <==> file == all || ReadsAlike(file, limit))
    ensures !raised && (maxBytes <= 0 || |existing| + |Data(events)| <= maxBytes + COMPACT_MARGIN) ==>
      file == existing + Data(events)
    ensures AllFine(events) && closing == FINE && maxBytes > 0 && |existing| <= maxBytes + COMPACT_MARGIN ==>
      !raised && |file| <= maxBytes + COMPACT_MARGIN
  {
    hide ReadLog, Shape, Data;
    NothingWritten(Config(maxBytes, if bufferBytes > 4096 then bufferBytes else 4096,
                          if flushInterval > 0.0 then flushInterval else 0.0, marker), existing, events);
    var writer := new RunLogWriter(maxBytes, bufferBytes, flushInterval, marker, existing, existing, true, now);
    var i := 0;
    while i < |events|
      invariant 0 <= i <= |events| && writer.Valid() && !writer.closed && fresh(writer)
      invariant writer.accepted == existing + Data(events[..i])
      invariant AllFine(events) && |existing| <= maxBytes + COMPACT_MARGIN ==>
        writer.Sized() && writer.open && writer.WithinBound()
    {
      DataNext(events, i);
      Assoc(existing, Data(events[..i]), Data([events[i]]));
      match events[i] {
        case Append(data, io, at) =>
          raised := writer.AppendBytes(data, io, at);
        case FlushDue(io, at) =>
          var flushed;
          flushed, raised := writer.FlushIfDue(io, at);
        case FlushNow(io, at) =>
          raised := writer.Flush(io, at);
      }
      if raised {
        return writer.file, true;
      }
      i := i + 1;
    }
    assert events[..i] == events;
    raised := writer.Close(closing, now);
    file := writer.file;
    if !raised {
      ReadersAgree(writer.cfg, file, existing + Data(events));
    }
  }

  lemma NothingWritten(cfg: Config, existing: Bytes, events: seq<Event>)
    ensures Shape(cfg, existing, existing) && existing + Data(events[..0]) == existing
  {
  }

  lemma DataNext(events: seq<Event>, i: nat)
    requires i < |events|
    ensures Data(events[..i + 1]) == Data(events[..i]) + Data([events[i]])
    ensures Data([events[i]]) == if events[i].Append? then events[i].data else []
    ensures Data(events[..i]) + [] == Data(events[..i])
    ensures AllFine(events) ==> events[i].io == FINE
  {
    assert events[..i + 1] == events[..i] + [events[i]];
    FlatMapAppend((e: Event) => if e.Append? then e.data else [], events[..i], [events[i]]);
    FlatMapOne((e: Event) => if e.Append? then e.data else [], events[i]);
  }

  lemma ReadersAgree(cfg: Config, file: Bytes, stream: Bytes)
    requires Shape(cfg, file, stream) && |cfg.marker| == MARKER_BYTES
    ensures cfg.maxBytes <= 0 || |stream| <= cfg.maxBytes + COMPACT_MARGIN ==> file == stream
    ensures forall limit: int :: Combinable(cfg, limit) ==>
      (ReadLog(cfg.marker, file, limit) == ReadLog(cfg.marker, stream, limit)
       <==> file == stream || ReadsAlike(file, limit))
  {
    forall limit: int | Combinable(cfg, limit)
      ensures ReadLog(cfg.marker, file, limit) == ReadLog(cfg.marker, stream, limit)
        <==> file == stream || ReadsAlike(file, limit)
    {
      CompactionIsInvisible(cfg, file, stream, limit);
    }
  }
}
