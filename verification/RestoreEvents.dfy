/** What a restore reports, read off the history of its records: each column of the snapshot,
    and the log, on its own. */
module RestoreEvents {
  import opened ByteLines
  import opened Options
  import opened RestoreProgress

  /** What one record says. */
  datatype Event =
    | Copied(line: Bytes)
    | Prepares | Announces(files: int, bytes: int) | HalfAnnounces(files: int) | Misannounces | Restores
    | Ends(code: int)
    | Extracts(current: int, total: int, path: Bytes) | Extracted
    | PermissionsRun | PermissionsEnd
    | Says(text: Bytes) | Lists(path: Bytes) | Silent

  // ---- reading records ----

  /** The line starts with RS "BBMRESTORE" TAB. */
  predicate ControlLine(r: Bytes) {
    |r| >= 12 && r[..12] == [30, 66, 66, 77, 82, 69, 83, 84, 79, 82, 69, 9]
  }

  /** The line is in braces, spaces around them aside. */
  predicate ObjectLine(r: Bytes) {
    var body := Strip(r);
    |body| > 0 && body[0] == 123 && body[|body| - 1] == 125
  }

  function EventOf(codec: Codec, r: Bytes): Event {
    if ControlLine(r) then
      match codec.control(r)
      case Prepare => Prepares
      case Baseline(Some(files), Some(bytes)) => Announces(files, bytes)
      case Baseline(Some(files), None) => HalfAnnounces(files)
      case Baseline(None, _) => Misannounces
      case Restore => Restores
      case Finish(code) => Ends(code)
      case Unknown => Copied(r)
    else if ObjectLine(r) then
      match codec.json(Strip(r))
      case NotAnObject => Copied(Strip(r))
      case ExtractFinished => Extracted
      case ExtractProgress(current, total, path) => Extracts(current, total, path)
      case BadNumbers => Silent
      case PermissionsFinished => PermissionsEnd
      case PermissionsRunning => PermissionsRun
      case Message(text) => Says(text)
      case ListItem(path) => Lists(path)
      case Ignored => Silent
    else Copied(r)
  }

  /** The records of a stream, without the CRs before their ends. */
  function Records(s: Bytes): seq<Bytes> {
    Lines(s) + if Rest(s) == [] then [] else [Rest(s)]
  }

  function EventsOf(codec: Codec, rs: seq<Bytes>): seq<Event> {
    seq(|rs|, i requires 0 <= i < |rs| => EventOf(codec, RStripCr(rs[i])))
  }

  /** Stripping takes the spaces at both ends and nothing else. */
  lemma {:induction false} StripExactly(s: Bytes) returns (a: Bytes, b: Bytes)
    ensures s == a + Strip(s) + b
    ensures (forall k :: 0 <= k < |a| ==> Space(a[k])) && (forall k :: 0 <= k < |b| ==> Space(b[k]))
    ensures Strip(s) != [] ==> !Space(Strip(s)[0]) && !Space(Strip(s)[|Strip(s)| - 1])
    decreases |s|
  {
    a, b := [], [];
    if s != [] && Space(s[0]) {
      a, b := StripExactly(s[1..]);
      a := [s[0]] + a;
    } else if s != [] && Space(s[|s| - 1]) {
      a, b := StripExactly(s[..|s| - 1]);
      b := b + [s[|s| - 1]];
    }
  }

  /** A record loses the CRs at its end and nothing else. */
  lemma {:induction false} RStripCrExactly(s: Bytes) returns (b: Bytes)
    ensures s == RStripCr(s) + b && (forall k :: 0 <= k < |b| ==> b[k] == CR)
    ensures RStripCr(s) != [] ==> RStripCr(s)[|RStripCr(s)| - 1] != CR
  {
    b := [];
    if s != [] && s[|s| - 1] == CR {
      b := RStripCrExactly(s[..|s| - 1]);
      b := b + [CR];
    }
  }

  // ---- the log ----

  function AtLeastZero(x: int): nat {
    if x > 0 then x else 0
  }

  function ShownLine(text: Bytes): Bytes {
    if |text| == 0 then [] else text + [LF]
  }

  /** What the log shows of an event. */
  function Shown(codec: Codec, e: Event): Bytes {
    match e
    case Copied(line) => line + [LF]
    case Says(text) => ShownLine(text)
    case Lists(path) => ShownLine(path)
    case Prepares => ShownLine(codec.render(PreparingText))
    case Announces(files, bytes) => ShownLine(codec.render(BaselineText(AtLeastZero(files), AtLeastZero(bytes))))
    case HalfAnnounces(_) => ShownLine(codec.render(BadBaselineText))
    case Misannounces => ShownLine(codec.render(BadBaselineText))
    case Restores => ShownLine(codec.render(RestoringText))
    case _ => []
  }

  function Log(codec: Codec, es: seq<Event>): Bytes {
    if es == [] then [] else Log(codec, es[..|es| - 1]) + Shown(codec, es[|es| - 1])
  }

  // ---- the columns of the snapshot ----

  predicate Succeeds(e: Event) {
    e.Ends? && (e.code == 0 || e.code == 1)
  }

  /** The phase an event puts the restore into, if it reports anything. */
  function PhaseOf(e: Event): Option<Phase> {
    match e
    case Prepares => Some(Preparing)
    case Announces(_, _) => Some(Preparing)
    case Restores => Some(Restoring)
    case Extracts(_, _, _) => Some(Restoring)
    case Lists(_) => Some(Restoring)
    case Extracted => Some(Permissions)
    case PermissionsRun => Some(Permissions)
    case PermissionsEnd => Some(Finished)
    case Ends(_) => Some(if Succeeds(e) then Finished else Failed)
    case _ => None
  }

  predicate Completes(e: Event) {
    e.Extracted? || e.PermissionsEnd? || Succeeds(e)
  }

  /** The announced totals: the newest ones. */
  function FilesAnnounced(es: seq<Event>): nat {
    if es == [] then 0
    else
      match es[|es| - 1]
      case Announces(files, _) => AtLeastZero(files)
      case HalfAnnounces(files) => AtLeastZero(files)
      case _ => FilesAnnounced(es[..|es| - 1])
  }

  function BytesAnnounced(es: seq<Event>): nat {
    if es == [] then 0
    else if es[|es| - 1].Announces? then AtLeastZero(es[|es| - 1].bytes)
    else BytesAnnounced(es[..|es| - 1])
  }

  /** One for every listed path, and at least the announced files at a successful end. */
  function FilesDone(es: seq<Event>): nat {
    if es == [] then 0
    else
      var e, before := es[|es| - 1], FilesDone(es[..|es| - 1]);
      if e.Lists? then before + 1
      else if Succeeds(e) && FilesAnnounced(es) > before then FilesAnnounced(es)
      else before
  }

  /** The total of the newest extract record, or else what was announced. */
  function TotalAt(es: seq<Event>): nat {
    if es == [] then 0
    else
      var e, before := es[|es| - 1], TotalAt(es[..|es| - 1]);
      if e.Extracts? && e.total > 0 then e.total
      else if e.Extracts? || e.Announces? then BytesAnnounced(es)
      else if PhaseOf(e).Some? && before == 0 then BytesAnnounced(es)
      else before
  }

  /** What the newest extract record has processed, or all of it once that is complete. */
  function DoneAt(es: seq<Event>): nat {
    if es == [] then 0
    else
      var e := es[|es| - 1];
      if e.Extracts? then AtLeastZero(e.current)
      else if Completes(e) && TotalAt(es) > 0 then TotalAt(es)
      else DoneAt(es[..|es| - 1])
  }

  /** The newest path. */
  function PathAt(es: seq<Event>): Bytes {
    if es == [] then []
    else if es[|es| - 1].Extracts? || es[|es| - 1].Lists? then es[|es| - 1].path
    else PathAt(es[..|es| - 1])
  }

  /** The events up to the newest one that reports anything. */
  function Reported(es: seq<Event>): (r: seq<Event>)
    ensures r != [] ==> PhaseOf(r[|r| - 1]).Some?
  {
    if es == [] || PhaseOf(es[|es| - 1]).Some? then es else Reported(es[..|es| - 1])
  }

  /** The share that is done, if the total is known. */
  function Share(done: nat, total: nat): Option<real> {
    if total == 0 then None
    else if done >= total then Some(100.0)
    else Some(done as real / total as real * 100.0)
  }

  /** The snapshot after some events. */
  function Latest(es: seq<Event>): Progress {
    var r := Reported(es);
    if r == [] then Progress(Preparing, 0, 0, 0, 0, [], None)
    else
      Progress(PhaseOf(r[|r| - 1]).value, DoneAt(r), TotalAt(r), FilesDone(r), FilesAnnounced(r), PathAt(r),
               Share(DoneAt(r), TotalAt(r)))
  }

  // ---- the filter's state is that ----

  function StateAt(es: seq<Event>): State {
    State(Latest(es), FilesDone(es), FilesAnnounced(es), BytesAnnounced(es))
  }

  /** Silent events change no column. */
  lemma {:induction false} ReportedKeeps(es: seq<Event>)
    ensures DoneAt(Reported(es)) == DoneAt(es) && TotalAt(Reported(es)) == TotalAt(es)
    ensures PathAt(Reported(es)) == PathAt(es)
  {
    if es != [] && PhaseOf(es[|es| - 1]).None? {
      ReportedKeeps(es[..|es| - 1]);
    }
  }

  lemma ClampIsShare(done: nat, total: nat)
    ensures Percent(done, total) == Share(done, total)
  {
    if total > 0 {
      var q := done as real / total as real;
      assert q * total as real == done as real;
      if done >= total {
        AtLeastOne(q, done as real, total as real);
      } else {
        BelowOne(q, done as real, total as real);
      }
    }
  }

  lemma AtLeastOne(q: real, done: real, total: real)
    requires total > 0.0 && q * total == done >= total
    ensures q >= 1.0
  {
  }

  lemma BelowOne(q: real, done: real, total: real)
    requires total > 0.0 && q * total == done < total && done >= 0.0
    ensures 0.0 <= q < 1.0
  {
  }

  /** A snapshot taken for a reporting event is the one the columns give. */
  lemma NextLatest(es: seq<Event>, e: Event, st: State, processed: Option<nat>, total: Option<nat>,
                   path: Option<Bytes>)
    requires PhaseOf(e).Some?
    requires st.latest == Latest(es) && st.baseline == BytesAnnounced(es + [e])
    requires st.processedFiles == FilesDone(es + [e]) && st.totalFiles == FilesAnnounced(es + [e])
    requires processed == if e.Extracts? then Some(AtLeastZero(e.current)) else None
    requires total == if e.Extracts? then Some(AtLeastZero(e.total))
                      else if e.Announces? then Some(BytesAnnounced(es + [e])) else None
    requires path == if e.Extracts? || e.Lists? then Some(e.path) else None
    ensures Snapshot(st, PhaseOf(e).value, processed, total, path, Completes(e)).latest == Latest(es + [e])
  {
    hide FilesDone, FilesAnnounced, BytesAnnounced, Percent, Share;
    var more := es + [e];
    assert more[..|es|] == es && more[|more| - 1] == e;
    ReportedKeeps(es);
    assert Reported(more) == more;
    ClampIsShare(DoneAt(more), TotalAt(more));
    FullShare(TotalAt(more));
  }

  lemma FullShare(total: nat)
    ensures total > 0 ==> Share(total, total) == Some(100.0)
  {
  }

  lemma NextQuiet(es: seq<Event>, e: Event)
    requires PhaseOf(e).None?
    ensures Latest(es + [e]) == Latest(es)
  {
    assert (es + [e])[..|es|] == es;
  }

  /** The counters after one more event. */
  lemma NextCounts(es: seq<Event>, e: Event)
    ensures FilesAnnounced(es + [e])
      == if e.Announces? || e.HalfAnnounces? then AtLeastZero(e.files) else FilesAnnounced(es)
    ensures BytesAnnounced(es + [e]) == if e.Announces? then AtLeastZero(e.bytes) else BytesAnnounced(es)
    ensures FilesDone(es + [e]) == if e.Lists? then FilesDone(es) + 1
                                   else if Succeeds(e) && FilesAnnounced(es) > FilesDone(es) then FilesAnnounced(es)
                                   else FilesDone(es)
  {
    assert (es + [e])[..|es|] == es && (es + [e])[|es|] == e;
  }

  /** One record. */
  lemma NextEvent(codec: Codec, es: seq<Event>, r: Bytes)
    ensures var e := EventOf(codec, r);
      Consume(codec, StateAt(es), r) == Consumed(Shown(codec, e), StateAt(es + [e]))
  {
    hide Latest, FilesDone, FilesAnnounced, BytesAnnounced, Strip, Snapshot;
    var e := EventOf(codec, r);
    NextCounts(es, e);
    if PhaseOf(e).None? {
      NextQuiet(es, e);
    } else {
      var st := State(Latest(es), FilesDone(es + [e]), FilesAnnounced(es + [e]), BytesAnnounced(es + [e]));
      var processed := if e.Extracts? then Some(AtLeastZero(e.current)) else None;
      var total := if e.Extracts? then Some(AtLeastZero(e.total))
                   else if e.Announces? then Some(BytesAnnounced(es + [e])) else None;
      var path := if e.Extracts? || e.Lists? then Some(e.path) else None;
      NextLatest(es, e, st, processed, total, path);
      SnapshotKeeps(st, PhaseOf(e).value, processed, total, path, Completes(e));
    }
    assert Prefixes(CONTROL_PREFIX, r) <==> ControlLine(r);
  }

  lemma SnapshotKeeps(st: State, phase: Phase, processed: Option<nat>, total: Option<nat>, path: Option<Bytes>,
                      finished: bool)
    ensures var next := Snapshot(st, phase, processed, total, path, finished); next == st.(latest := next.latest)
  {
  }

  /** The records of a stream, consumed from the start. */
  lemma {:induction false} RecordsAreEvents(codec: Codec, rs: seq<Bytes>)
    ensures var es := EventsOf(codec, rs);
      ConsumeLines(codec, Consumed([], Initial), rs) == Consumed(Log(codec, es), StateAt(es))
    decreases |rs|
  {
    hide Consume, Latest, FilesDone, FilesAnnounced, BytesAnnounced, Shown, EventOf, RStripCr, StateAt;
    if rs == [] {
      NothingYet(codec);
    } else {
      var front, r := rs[..|rs| - 1], rs[|rs| - 1];
      RecordsAreEvents(codec, front);
      var es, e := EventsOf(codec, front), EventOf(codec, RStripCr(r));
      NextEvent(codec, es, RStripCr(r));
      assert rs == front + [r];
      ConsumeAppend(codec, Consumed([], Initial), front, [r]);
      LastRecord(codec, Consumed(Log(codec, es), StateAt(es)), r);
      assert EventsOf(codec, rs) == es + [e];
      NextLine(codec, es, e);
    }
  }

  lemma NothingYet(codec: Codec)
    ensures EventsOf(codec, []) == [] && Log(codec, []) == [] && StateAt([]) == Initial
  {
  }

  lemma LastRecord(codec: Codec, c: Consumed, r: Bytes)
    ensures var next := Consume(codec, c.state, RStripCr(r));
      ConsumeLines(codec, c, [r]) == Consumed(c.output + next.output, next.state)
  {
    hide Consume, RStripCr;
    var next := Consume(codec, c.state, RStripCr([r][0]));
    assert ConsumeLines(codec, Consumed(c.output + next.output, next.state), [r][1..])
      == Consumed(c.output + next.output, next.state);
  }

  lemma NextLine(codec: Codec, es: seq<Event>, e: Event)
    ensures Log(codec, es + [e]) == Log(codec, es) + Shown(codec, e)
  {
    assert (es + [e])[..|es|] == es;
  }

  /** The reading of a whole stream, column by column. */
  lemma ReferenceIsEvents(codec: Codec, s: Bytes)
    ensures var es := EventsOf(codec, Records(s)); Reference(codec, s) == Consumed(Log(codec, es), StateAt(es))
  {
    hide ConsumeLines, Log, StateAt, EventsOf, Lines, Rest;
    RecordsAreEvents(codec, Records(s));
    if Rest(s) == [] {
      assert Records(s) == Lines(s);
    } else {
      ConsumeAppend(codec, Consumed([], Initial), Lines(s), [Rest(s)]);
    }
  }

  /** Any chunks that leave no overlong rest: the log shows, in order, what each record shows,
      and the snapshot is that of all records. */
  method FilterEvents(codec: Codec, chunks: seq<Bytes>) returns (output: Bytes, latest: Progress)
    requires ShortRests([], chunks)
    ensures var es := EventsOf(codec, Records(Flatten(chunks))); output == Log(codec, es) && latest == Latest(es)
  {
    hide *;
    output, latest := FilterStream(codec, chunks);
    ReferenceIsEvents(codec, Flatten(chunks));
    LatestOf(EventsOf(codec, Records(Flatten(chunks))));
  }

  lemma LatestOf(es: seq<Event>)
    ensures StateAt(es).latest == Latest(es)
  {
  }

  // ---- what the columns mean ----

  /** The number of listed paths. */
  function Listed(es: seq<Event>): nat {
    if es == [] then 0 else Listed(es[1..]) + if es[0].Lists? then 1 else 0
  }

  /** After the newest successful end every listed path counts one more; before any, all do. */
  lemma {:induction false} FilesExactly(before: seq<Event>, after: seq<Event>)
    requires forall e :: e in after ==> !Succeeds(e)
    ensures FilesDone(before + after) == FilesDone(before) + Listed(after)
    decreases |after|
  {
    if after == [] {
      assert before + after == before;
    } else {
      var e := after[0];
      FilesExactly(before + [e], after[1..]);
      assert before + after == before + [e] + after[1..];
      NextCounts(before, e);
    }
  }

  /** Without a successful end, the files are the listed paths; after one, there are at least
      as many as were announced, and exactly that many if fewer were listed. */
  lemma FilesAtEnd(before: seq<Event>, end: Event, after: seq<Event>)
    requires Succeeds(end) && forall e :: e in after ==> !Succeeds(e)
    ensures (forall e :: e in before ==> !Succeeds(e)) ==> FilesDone(before) == Listed(before)
    ensures var announced := FilesAnnounced(before);
      FilesDone(before + [end] + after)
      == (if announced > FilesDone(before) then announced else FilesDone(before)) + Listed(after)
  {
    FilesExactly(before + [end], after);
    NextCounts(before, end);
    if forall e :: e in before ==> !Succeeds(e) {
      FilesExactly([], before);
      assert [] + before == before;
    }
  }

  /** Reports nothing. */
  predicate Quiet(es: seq<Event>) {
    forall k :: 0 <= k < |es| ==> PhaseOf(es[k]).None?
  }

  lemma {:induction false} LatestAfterQuiet(es: seq<Event>, quiet: seq<Event>)
    requires Quiet(quiet)
    ensures Latest(es + quiet) == Latest(es)
    decreases |quiet|
  {
    hide Latest;
    if quiet == [] {
      assert es + quiet == es;
    } else {
      var n := |quiet| - 1;
      LatestAfterQuiet(es, quiet[..n]);
      assert es + quiet == es + quiet[..n] + [quiet[n]];
      NextQuiet(es + quiet[..n], quiet[n]);
    }
  }

  /** After a last extract record: its current, its total, or the announced one if it gives none,
      its path, and the share of the two, at most 100. */
  lemma LastExtract(before: seq<Event>, current: int, total: int, path: Bytes, quiet: seq<Event>)
    requires Quiet(quiet)
    ensures var p := Latest(before + [Extracts(current, total, path)] + quiet);
      && p.phase == Restoring && p.path == path && p.processedBytes == AtLeastZero(current)
      && p.totalBytes == (if total > 0 then total else BytesAnnounced(before))
      && p.processedFiles == FilesDone(before) && p.totalFiles == FilesAnnounced(before)
      && (p.totalBytes == 0 <==> p.percent.None?)
      && (0 < p.totalBytes <= current ==> p.percent == Some(100.0))
      && (0 <= current < p.totalBytes ==> p.percent == Some(current as real / p.totalBytes as real * 100.0))
  {
    var e := Extracts(current, total, path);
    LatestAfterQuiet(before + [e], quiet);
    NextCounts(before, e);
    hide FilesDone, FilesAnnounced, BytesAnnounced;
    assert (before + [e])[|before|] == e;
  }

  /** After a last listed path: one file more, this path, and the bytes as they were. */
  lemma LastListed(before: seq<Event>, path: Bytes, quiet: seq<Event>)
    requires Quiet(quiet)
    ensures var p := Latest(before + [Lists(path)] + quiet);
      && p.phase == Restoring && p.path == path && p.processedFiles == FilesDone(before) + 1
      && p.processedBytes == DoneAt(before)
  {
    var e := Lists(path);
    LatestAfterQuiet(before + [e], quiet);
    NextCounts(before, e);
    hide FilesDone, FilesAnnounced, BytesAnnounced;
    assert (before + [e])[|before|] == e && (before + [e])[..|before|] == before;
  }

  /** Each event that reports leaves its own phase. */
  lemma LastPhase(before: seq<Event>, e: Event, quiet: seq<Event>)
    requires Quiet(quiet)
    ensures var p := Latest(before + [e] + quiet);
      && (e.Prepares? || e.Announces? ==> p.phase == Preparing)
      && (e.Restores? || e.Extracts? || e.Lists? ==> p.phase == Restoring)
      && (e.Extracted? || e.PermissionsRun? ==> p.phase == Permissions)
      && (e.PermissionsEnd? || (e.Ends? && (e.code == 0 || e.code == 1)) ==> p.phase == Finished)
      && (e.Ends? && e.code != 0 && e.code != 1 ==> p.phase == Failed)
  {
    if PhaseOf(e).Some? {
      LatestAfterQuiet(before + [e], quiet);
      hide FilesDone, FilesAnnounced, BytesAnnounced, DoneAt, TotalAt, PathAt, Share;
      assert (before + [e])[|before|] == e;
    }
  }

  /** A completed extraction, or a successful end, is at 100 percent if a total is known. */
  lemma LastComplete(before: seq<Event>, e: Event, quiet: seq<Event>)
    requires Quiet(quiet) && (e.Extracted? || e.PermissionsEnd? || Succeeds(e))
    ensures var p := Latest(before + [e] + quiet);
      && p.totalBytes == (if TotalAt(before) > 0 then TotalAt(before) else BytesAnnounced(before))
      && (p.totalBytes > 0 ==> p.processedBytes == p.totalBytes && p.percent == Some(100.0))
      && (p.totalBytes == 0 ==> p.processedBytes == DoneAt(before) && p.percent == None)
  {
    LatestAfterQuiet(before + [e], quiet);
    NextCounts(before, e);
    hide FilesDone, FilesAnnounced, BytesAnnounced;
    assert (before + [e])[|before|] == e && (before + [e])[..|before|] == before;
  }
}
