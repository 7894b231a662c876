/** `BorgRestoreProgressStreamFilter`: JSON progress and control records are
    taken out of the restore output, line by line, with a bounded carry. */
module RestoreProgress {
  import opened ByteLines
  import opened Options

  const MAX_CARRY := 256 * 1024

  /** RS "BBMRESTORE" TAB. */
  const CONTROL_PREFIX: Bytes := [RS, 66, 66, 77, 82, 69, 83, 84, 79, 82, 69, TAB]

  datatype Phase = Preparing | Restoring | Permissions | Finished | Failed

  datatype Progress = Progress(phase: Phase, processedBytes: nat, totalBytes: nat, processedFiles: nat,
                               totalFiles: nat, path: Bytes, percent: Option<real>)

  /** The control commands; `Unknown` covers everything else, also too few fields. */
  datatype Control = Prepare | Baseline(files: Option<int>, bytes: Option<int>) | Restore
                   | Finish(returnCode: int) | Unknown

  /** What a JSON record says, or that it is not a JSON object. */
  datatype Json = NotAnObject | ExtractFinished | ExtractProgress(current: int, total: int, path: Bytes)
                | BadNumbers | PermissionsFinished | PermissionsRunning
                | Message(text: Bytes) | ListItem(text: Bytes) | Ignored

  datatype Text = PreparingText | BadBaselineText | BaselineText(files: nat, bytes: nat) | RestoringText

  /** Decoders and message texts outside this model. */
  datatype Codec = Codec(control: Bytes -> Control, json: Bytes -> Json, render: Text -> Bytes)

  datatype State = State(latest: Progress, processedFiles: nat, totalFiles: nat, baseline: nat)

  const Initial := State(Progress(Preparing, 0, 0, 0, 0, [], None), 0, 0, 0)

  function NonNegative(x: int): nat {
    if x < 0 then 0 else x
  }

  function Clamp(p: real): real {
    if p < 0.0 then 0.0 else if p > 100.0 then 100.0 else p
  }

  function Percent(current: nat, total: nat): Option<real> {
    if total == 0 then None else Some(Clamp(current as real / total as real * 100.0))
  }

  function Snapshot(st: State, phase: Phase, processed: Option<nat>, total: Option<nat>,
                    path: Option<Bytes>, finished: bool): State {
    var current := if processed.Some? then processed.value else st.latest.processedBytes;
    var given := if total.Some? then total.value else st.latest.totalBytes;
    var whole := if given == 0 then st.baseline else given;
    var done := finished && whole != 0;
    st.(latest := Progress(phase, if done then whole else current, whole, st.processedFiles, st.totalFiles,
                           if path.Some? then path.value else st.latest.path,
                           if done then Some(100.0) else Percent(current, whole)))
  }

  datatype Consumed = Consumed(output: Bytes, state: State)

  function HumanLine(text: Bytes): Bytes {
    if text == [] then [] else text + [LF]
  }

  function ControlRecord(codec: Codec, st: State, record: Bytes): Consumed {
    match codec.control(record)
    case Prepare => Consumed(HumanLine(codec.render(PreparingText)), Snapshot(st, Preparing, None, None, None, false))
    case Baseline(Some(files), Some(bytes)) =>
      var st' := st.(totalFiles := NonNegative(files), baseline := NonNegative(bytes));
      Consumed(HumanLine(codec.render(BaselineText(st'.totalFiles, st'.baseline))),
               Snapshot(st', Preparing, None, Some(st'.baseline), None, false))
    case Baseline(Some(files), None) =>
      // The file count is stored before the second conversion fails.
      Consumed(HumanLine(codec.render(BadBaselineText)), st.(totalFiles := NonNegative(files)))
    case Baseline(None, _) => Consumed(HumanLine(codec.render(BadBaselineText)), st)
    case Restore => Consumed(HumanLine(codec.render(RestoringText)), Snapshot(st, Restoring, None, None, None, false))
    case Finish(rc) =>
      if rc == 0 || rc == 1 then
        var st' := if st.processedFiles < st.totalFiles then st.(processedFiles := st.totalFiles) else st;
        Consumed([], Snapshot(st', Finished, None, None, None, true))
      else Consumed([], Snapshot(st, Failed, None, None, None, false))
    case Unknown => Consumed(record + [LF], st)
  }

  function JsonRecord(codec: Codec, st: State, record: Bytes): Consumed {
    match codec.json(record)
    case NotAnObject => Consumed(record + [LF], st)
    case ExtractFinished => Consumed([], Snapshot(st, Permissions, None, None, None, true))
    case ExtractProgress(current, total, path) =>
      Consumed([], Snapshot(st, Restoring, Some(NonNegative(current)), Some(NonNegative(total)), Some(path), false))
    case BadNumbers => Consumed([], st)
    case PermissionsFinished => Consumed([], Snapshot(st, Finished, None, None, None, true))
    case PermissionsRunning => Consumed([], Snapshot(st, Permissions, None, None, None, false))
    case Message(text) => Consumed(HumanLine(text), st)
    case ListItem(text) =>
      var st' := st.(processedFiles := st.processedFiles + 1);
      Consumed(HumanLine(text), Snapshot(st', Restoring, None, None, Some(text), false))
    case Ignored => Consumed([], st)
  }

  function RStripCr(s: Bytes): Bytes {
    if s != [] && s[|s| - 1] == CR then RStripCr(s[..|s| - 1]) else s
  }

  function Strip(s: Bytes): Bytes
    decreases |s|
  {
    if s != [] && Space(s[0]) then Strip(s[1..])
    else if s != [] && Space(s[|s| - 1]) then Strip(s[..|s| - 1])
    else s
  }

  function Consume(codec: Codec, st: State, record: Bytes): Consumed {
    if Prefixes(CONTROL_PREFIX, record) then ControlRecord(codec, st, record)
    else
      var s := Strip(record);
      if s != [] && s[0] == 123 && s[|s| - 1] == 125 then JsonRecord(codec, st, s)
      else Consumed(record + [LF], st)
  }

  // ---- the reference: the whole stream, line by line ----

  function ConsumeLines(codec: Codec, c: Consumed, ls: seq<Bytes>): Consumed
    decreases |ls|
  {
    if ls == [] then c
    else
      var next := Consume(codec, c.state, RStripCr(ls[0]));
      ConsumeLines(codec, Consumed(c.output + next.output, next.state), ls[1..])
  }

  function Reference(codec: Codec, s: Bytes): Consumed {
    var lines := ConsumeLines(codec, Consumed([], Initial), Lines(s));
    if Rest(s) == [] then lines else ConsumeLines(codec, lines, [Rest(s)])
  }

  lemma {:induction false} ConsumeAppend(codec: Codec, c: Consumed, a: seq<Bytes>, b: seq<Bytes>)
    ensures ConsumeLines(codec, c, a + b) == ConsumeLines(codec, ConsumeLines(codec, c, a), b)
    decreases |a|
  {
    hide Consume;
    if a == [] {
      assert a + b == b;
    } else {
      assert (a + b)[1..] == a[1..] + b;
      var next := Consume(codec, c.state, RStripCr(a[0]));
      ConsumeAppend(codec, Consumed(c.output + next.output, next.state), a[1..], b);
    }
  }

  // ---- a whole run ----

  datatype Run = Run(carry: Bytes, sofar: Consumed)

  function Feed(codec: Codec, run: Run, data: Bytes): Run {
    var p := run.carry + data;
    var c := ConsumeLines(codec, run.sofar, Lines(p));
    if |Rest(p)| > MAX_CARRY then Run([], c.(output := c.output + Rest(p))) else Run(Rest(p), c)
  }

  function FeedAll(codec: Codec, run: Run, chunks: seq<Bytes>): Run
    decreases |chunks|
  {
    if chunks == [] then run else FeedAll(codec, Feed(codec, run, chunks[0]), chunks[1..])
  }

  function Finalize(codec: Codec, run: Run): Consumed {
    if run.carry == [] then run.sofar else ConsumeLines(codec, run.sofar, [run.carry])
  }

  function Process(codec: Codec, chunks: seq<Bytes>): Consumed {
    Finalize(codec, FeedAll(codec, Run([], Consumed([], Initial)), chunks))
  }

  /** No line, terminated or not, is longer than the carry may get. */
  predicate ShortLines(s: Bytes) {
    |Rest(s)| <= MAX_CARRY && forall i :: 0 <= i < |Lines(s)| ==> |Lines(s)[i]| <= MAX_CARRY
  }

  /** After no chunk the unterminated rest of the stream so far, which starts with s, is
      longer than the carry may get. A longer line within one chunk is allowed. */
  predicate ShortRests(s: Bytes, chunks: seq<Bytes>)
    decreases |chunks|
  {
    chunks != [] ==> |Rest(s + chunks[0])| <= MAX_CARRY && ShortRests(s + chunks[0], chunks[1..])
  }

  function StateFor(codec: Codec, s: Bytes): Run {
    Run(Rest(s), ConsumeLines(codec, Consumed([], Initial), Lines(s)))
  }

  lemma {:induction false} ShortPrefix(a: Bytes, b: Bytes)
    requires ShortLines(a + b)
    ensures |Rest(a)| <= MAX_CARRY
  {
    hide FindByteFrom;
    LinesAppend(a, b);
    var r := Rest(a);
    var p := r + b;
    FindByteAppend(r, b, LF);
    if FindByte(p, LF) >= 0 {
      assert Lines(p)[0] == p[..FindByte(p, LF)];
      assert Lines(a + b)[|Lines(a)|] == Lines(p)[0];
    }
  }

  lemma {:induction false} FeedExtends(codec: Codec, s: Bytes, x: Bytes)
    requires |Rest(s + x)| <= MAX_CARRY
    ensures Feed(codec, StateFor(codec, s), x) == StateFor(codec, s + x)
  {
    hide ConsumeLines, Lines, Rest;
    LinesAppend(s, x);
    ConsumeAppend(codec, Consumed([], Initial), Lines(s), Lines(Rest(s) + x));
  }

  lemma {:induction false} FeedAllState(codec: Codec, s: Bytes, chunks: seq<Bytes>)
    requires ShortRests(s, chunks)
    ensures FeedAll(codec, StateFor(codec, s), chunks) == StateFor(codec, s + Flatten(chunks))
    decreases |chunks|
  {
    hide StateFor, Feed;
    if chunks == [] {
      assert s + [] == s;
    } else {
      Assoc(s, chunks[0], Flatten(chunks[1..]));
      FeedExtends(codec, s, chunks[0]);
      FeedAllState(codec, s + chunks[0], chunks[1..]);
    }
  }

  /** While no chunk leaves an unterminated rest longer than the carry limit, the readable
      output, the file counts, the baseline totals and the last snapshot are those of the
      stream read record by record. */
  lemma {:induction false} ChunkInvariance(codec: Codec, chunks: seq<Bytes>)
    requires ShortRests([], chunks)
    ensures Process(codec, chunks) == Reference(codec, Flatten(chunks))
  {
    hide ConsumeLines, ShortRests;
    assert [] + Flatten(chunks) == Flatten(chunks);
    StartState(codec);
    FeedAllState(codec, [], chunks);
  }

  /** A stream without lines over the limit can be cut anywhere. */
  lemma {:induction false} ShortLinesSuffice(s: Bytes, chunks: seq<Bytes>)
    requires ShortLines(s + Flatten(chunks))
    ensures ShortRests(s, chunks)
    decreases |chunks|
  {
    hide ShortLines;
    if chunks != [] {
      Assoc(s, chunks[0], Flatten(chunks[1..]));
      ShortPrefix(s + chunks[0], Flatten(chunks[1..]));
      ShortLinesSuffice(s + chunks[0], chunks[1..]);
    }
  }

  lemma StartState(codec: Codec)
    ensures StateFor(codec, []) == Run([], Consumed([], Initial))
  {
    hide Consume;
    assert Lines([]) == [];
  }

  lemma {:induction false} ConsumeOne(codec: Codec, c: Consumed, l: Bytes)
    ensures var next := Consume(codec, c.state, RStripCr(l));
      ConsumeLines(codec, c, [l]) == Consumed(c.output + next.output, next.state)
  {
    hide Consume;
    var next := Consume(codec, c.state, RStripCr(l));
    var d := Consumed(c.output + next.output, next.state);
    assert ConsumeLines(codec, c, [l]) == ConsumeLines(codec, d, [l][1..]);
  }

  // ---- which cuts are visible ----

  /** The readable output of a record; it does not depend on what was counted before. */
  function RecordOutput(codec: Codec, record: Bytes): Bytes {
    Consume(codec, Initial, record).output
  }

  lemma OutputOfRecord(codec: Codec, st: State, record: Bytes)
    ensures Consume(codec, st, record).output == RecordOutput(codec, record)
  {
    hide Strip, Prefixes, Snapshot;
  }

  function Outputs(codec: Codec, ls: seq<Bytes>): Bytes
    decreases |ls|
  {
    if ls == [] then [] else RecordOutput(codec, RStripCr(ls[0])) + Outputs(codec, ls[1..])
  }

  lemma {:induction false} OutputOfLines(codec: Codec, c: Consumed, ls: seq<Bytes>)
    ensures ConsumeLines(codec, c, ls).output == c.output + Outputs(codec, ls)
    decreases |ls|
  {
    hide Consume, RStripCr;
    if ls == [] {
      assert c.output + [] == c.output;
    } else {
      var next := Consume(codec, c.state, RStripCr(ls[0]));
      OutputOfRecord(codec, c.state, RStripCr(ls[0]));
      OutputOfLines(codec, Consumed(c.output + next.output, next.state), ls[1..]);
      Assoc(c.output, next.output, Outputs(codec, ls[1..]));
    }
  }

  /** What a run that feeds these chunks and then ends has written and counted. */
  function Result(codec: Codec, run: Run, chunks: seq<Bytes>): Consumed {
    Finalize(codec, FeedAll(codec, run, chunks))
  }

  function Then(codec: Codec, c: Consumed, record: Bytes): Consumed {
    var next := Consume(codec, c.state, RStripCr(record));
    Consumed(c.output + next.output, next.state)
  }

  /** An overlong rest r was copied; then the first record of b is read on its own. At the end
      of the stream a short unterminated b is a record too. */
  function CutFirst(codec: Codec, c: Consumed, r: Bytes, b: Bytes): Consumed {
    var n, copied := FindByte(b, LF), c.(output := c.output + r);
    if n >= 0 then Then(codec, copied, b[..n])
    else if b == [] || |b| > MAX_CARRY then copied.(output := copied.output + b)
    else Then(codec, copied, b)
  }

  /** The same bytes uncut: r belongs to the first record of b. */
  function JoinedFirst(codec: Codec, c: Consumed, r: Bytes, b: Bytes): Consumed {
    var n := FindByte(b, LF);
    if n >= 0 then Then(codec, c, r + b[..n]) else c.(output := c.output + (r + b))
  }

  /** The rest of the stream after the first record of b. */
  function Continue(codec: Codec, c: Consumed, b: Bytes): Consumed {
    var n := FindByte(b, LF);
    if n >= 0 then Result(codec, Run([], c), [b[n + 1..]]) else c
  }

  /** Consuming the joined first record has another effect than copying r and consuming
      what b starts with. */
  predicate FirstDiffers(codec: Codec, c: Consumed, r: Bytes, b: Bytes) {
    CutFirst(codec, c, r, b) != JoinedFirst(codec, c, r, b)
  }

  /** The outputs alone. */
  predicate OutputDiffers(codec: Codec, r: Bytes, b: Bytes) {
    var n := FindByte(b, LF);
    if n >= 0 then
      r + RecordOutput(codec, RStripCr(b[..n])) != RecordOutput(codec, RStripCr(r + b[..n]))
    else
      b != [] && |b| <= MAX_CARRY && RecordOutput(codec, RStripCr(b)) != b
  }

  /** The lines read before the cut, with what follows the last of them. */
  function Before(codec: Codec, run: Run, a: Bytes): Consumed {
    ConsumeLines(codec, run.sofar, Lines(run.carry + a))
  }

  /** A cut is never noticed while the rest before it fits into the carry; otherwise the two
      runs are those that go on from the two first effects. */
  lemma {:induction false} CutResults(codec: Codec, run: Run, a: Bytes, b: Bytes)
    ensures var r, c := Rest(run.carry + a), Before(codec, run, a);
      if |r| <= MAX_CARRY then Result(codec, run, [a, b]) == Result(codec, run, [a + b])
      else
        && Result(codec, run, [a, b]) == Continue(codec, CutFirst(codec, c, r, b), b)
        && Result(codec, run, [a + b]) == Continue(codec, JoinedFirst(codec, c, r, b), b)
  {
    hide *;
    var r, c := Rest(run.carry + a), Before(codec, run, a);
    TwoSteps(codec, run, a, b);
    OneStep(codec, run, a + b);
    ResultIs(codec, run, [a, b]);
    ResultIs(codec, run, [a + b]);
    FeedJoined(codec, run, a, b);
    if |r| <= MAX_CARRY {
      FeedShort(codec, run, a, b);
    } else {
      FeedLong(codec, run, a);
      CutContinues(codec, c, r, b);
      JoinedContinues(codec, c, r, b);
    }
  }

  lemma ResultIs(codec: Codec, run: Run, chunks: seq<Bytes>)
    ensures Result(codec, run, chunks) == Finalize(codec, FeedAll(codec, run, chunks))
  {
  }

  /** Feeding to a carry that need not be short, which is what an uncut stream amounts to. */
  lemma {:induction false} FeedJoined(codec: Codec, run: Run, a: Bytes, b: Bytes)
    ensures Feed(codec, run, a + b) == Feed(codec, Run(Rest(run.carry + a), Before(codec, run, a)), b)
  {
    hide ConsumeLines, Lines, Rest;
    Assoc(run.carry, a, b);
    LinesAppend(run.carry + a, b);
    ConsumeAppend(codec, run.sofar, Lines(run.carry + a), Lines(Rest(run.carry + a) + b));
  }

  lemma FeedShort(codec: Codec, run: Run, a: Bytes, b: Bytes)
    requires |Rest(run.carry + a)| <= MAX_CARRY
    ensures Feed(codec, run, a) == Run(Rest(run.carry + a), Before(codec, run, a))
  {
    hide ConsumeLines, Lines, Rest;
  }

  lemma FeedLong(codec: Codec, run: Run, a: Bytes)
    requires |Rest(run.carry + a)| > MAX_CARRY
    ensures var c, r := Before(codec, run, a), Rest(run.carry + a);
      Feed(codec, run, a) == Run([], c.(output := c.output + r))
  {
    hide ConsumeLines, Lines, Rest;
  }

  /** Feeding bytes that start with a complete record. */
  lemma {:induction false} FeedRecord(codec: Codec, c: Consumed, r: Bytes, b: Bytes, n: nat)
    requires n == FindByte(b, LF) && LF !in r
    ensures Feed(codec, Run(r, c), b) == Feed(codec, Run([], Then(codec, c, r + b[..n])), b[n + 1..])
  {
    hide *;
    FirstRecord(codec, c, r, b, n);
    FeedSame(codec, Run(r, c), b, Then(codec, c, r + b[..n]), b[n + 1..]);
  }

  lemma FirstRecord(codec: Codec, c: Consumed, r: Bytes, b: Bytes, n: nat)
    requires n == FindByte(b, LF) && LF !in r
    ensures Rest(r + b) == Rest(b[n + 1..])
    ensures ConsumeLines(codec, c, Lines(r + b)) == ConsumeLines(codec, Then(codec, c, r + b[..n]), Lines(b[n + 1..]))
  {
    hide *;
    LfAfter(r, b);
    RecordSlices(r, b, n);
    FirstLine(codec, c, r + b, |r| + n);
    ThenIs(codec, c, r + b[..n]);
  }

  lemma RecordSlices(r: Bytes, b: Bytes, n: nat)
    requires n < |b|
    ensures (r + b)[..|r| + n] == r + b[..n] && (r + b)[|r| + n + 1..] == b[n + 1..]
  {
  }

  lemma FeedSame(codec: Codec, x: Run, a: Bytes, c: Consumed, b: Bytes)
    requires Rest(x.carry + a) == Rest(b)
    requires ConsumeLines(codec, x.sofar, Lines(x.carry + a)) == ConsumeLines(codec, c, Lines(b))
    ensures Feed(codec, x, a) == Feed(codec, Run([], c), b)
  {
    hide ConsumeLines, Lines, Rest;
    assert [] + b == b;
  }

  lemma ThenIs(codec: Codec, c: Consumed, record: Bytes)
    ensures var next := Consume(codec, c.state, RStripCr(record));
      Then(codec, c, record) == Consumed(c.output + next.output, next.state)
  {
  }

  lemma LfAfter(r: Bytes, b: Bytes)
    requires LF !in r
    ensures FindByte(r + b, LF) == if FindByte(b, LF) < 0 then -1 else |r| + FindByte(b, LF)
  {
    hide FindByteFrom;
    assert FindByte(r, LF) < 0;
    FindByteAppend(r, b, LF);
  }

  lemma {:induction false} CutContinues(codec: Codec, c: Consumed, r: Bytes, b: Bytes)
    ensures Finalize(codec, Feed(codec, Run([], c.(output := c.output + r)), b))
      == Continue(codec, CutFirst(codec, c, r, b), b)
  {
    hide ConsumeLines, Consume, FindByteFrom, FindByte, RStripCr, Lines, Rest;
    var d, n := c.(output := c.output + r), FindByte(b, LF);
    assert [] + b == b && d.output + [] == d.output;
    if n >= 0 {
      FeedRecord(codec, d, [], b, n);
      assert [] + b[..n] == b[..n];
      OneStep(codec, Run([], CutFirst(codec, c, r, b)), b[n + 1..]);
    } else {
      NoLfFeed(codec, d, [], b);
      ConsumeOne(codec, d, b);
    }
  }

  /** Feeding bytes without a line end. */
  lemma NoLfFeed(codec: Codec, c: Consumed, r: Bytes, b: Bytes)
    requires LF !in r && FindByte(b, LF) < 0
    ensures Feed(codec, Run(r, c), b)
      == if |r + b| > MAX_CARRY then Run([], c.(output := c.output + (r + b))) else Run(r + b, c)
  {
    hide FindByteFrom, Consume;
    LfAfter(r, b);
    LastLine(r + b);
    NoLines(codec, c);
  }

  lemma {:induction false} JoinedContinues(codec: Codec, c: Consumed, r: Bytes, b: Bytes)
    requires LF !in r && |r| > MAX_CARRY
    ensures Finalize(codec, Feed(codec, Run(r, c), b)) == Continue(codec, JoinedFirst(codec, c, r, b), b)
  {
    hide ConsumeLines, Consume, FindByteFrom, FindByte, RStripCr, Lines, Rest;
    var n := FindByte(b, LF);
    if n >= 0 {
      FeedRecord(codec, c, r, b, n);
      OneStep(codec, Run([], JoinedFirst(codec, c, r, b)), b[n + 1..]);
    } else {
      NoLfFeed(codec, c, r, b);
    }
  }

  /** Over all runs and all cuts a | b: the readable output changes if and only if the rest
      before the cut is overlong and consuming the joined first record writes something else
      than the copied rest and what the first record of b writes. */
  lemma {:induction false} CutVisibleExactly(codec: Codec, run: Run, a: Bytes, b: Bytes)
    ensures var r := Rest(run.carry + a);
      Result(codec, run, [a, b]).output != Result(codec, run, [a + b]).output
      <==> |r| > MAX_CARRY && OutputDiffers(codec, r, b)
  {
    hide *;
    var r, c := Rest(run.carry + a), Before(codec, run, a);
    CutResults(codec, run, a, b);
    FirstOutputs(codec, c, r, b);
    var d, e := CutFirst(codec, c, r, b), JoinedFirst(codec, c, r, b);
    var more := ContinueOutput(codec, d, e, b);
  }

  /** The whole result, counts and snapshot included: it changes only for an overlong rest and
      differing first effects, and does so if the output differs or nothing follows. What
      follows can only make up for differing counts, by overwriting them. */
  lemma {:induction false} CutChangesResult(codec: Codec, run: Run, a: Bytes, b: Bytes)
    ensures var r, c, n := Rest(run.carry + a), Before(codec, run, a), FindByte(b, LF);
      var changed := Result(codec, run, [a, b]) != Result(codec, run, [a + b]);
      && (changed ==> |r| > MAX_CARRY && FirstDiffers(codec, c, r, b))
      && (|r| > MAX_CARRY && FirstDiffers(codec, c, r, b) && (OutputDiffers(codec, r, b) || n < 0 || n + 1 == |b|)
          ==> changed)
  {
    hide *;
    var r, c := Rest(run.carry + a), Before(codec, run, a);
    CutResults(codec, run, a, b);
    CutVisibleExactly(codec, run, a, b);
    var d, e := CutFirst(codec, c, r, b), JoinedFirst(codec, c, r, b);
    NothingFollows(codec, d, b);
    NothingFollows(codec, e, b);
    FirstDiffersIs(codec, c, r, b);
  }

  /** A plain line ending in an empty JSON object is copied whole; cut before the object, the
      object is read as a record of its own and disappears. */
  lemma {:induction false} PlainLineLosesItsEnd(codec: Codec, a: Bytes)
    requires codec.json([123, 125]) == Ignored
    requires |a| > MAX_CARRY && forall i :: 0 <= i < |a| ==> 65 <= a[i] <= 90
    ensures Process(codec, [a + [123, 125, LF]]).output == a + [123, 125, LF]
    ensures Process(codec, [a, [123, 125, LF]]).output == a
  {
    hide *;
    var start, braces: Bytes := Run([], Consumed([], Initial)), [123, 125];
    var b := braces + [LF];
    assert a + b == a + [123, 125, LF] && b == [123, 125, LF];
    ProcessIs(codec, [a, b]);
    ProcessIs(codec, [a + b]);
    CutResults(codec, start, a, b);
    PlainFacts(a);
    PlainBefore(codec, a);
    Braces(codec, start.sofar, a);
    NothingFollows(codec, CutFirst(codec, start.sofar, a, b), b);
    NothingFollows(codec, JoinedFirst(codec, start.sofar, a, b), b);
    FirstLf(braces);
  }

  lemma PlainFacts(a: Bytes)
    ensures |a| > MAX_CARRY ==> a != []
    ensures LF !in [123, 125] && [123, 125] + [LF] == [123, 125, LF]
  {
  }

  lemma ProcessIs(codec: Codec, chunks: seq<Bytes>)
    ensures Process(codec, chunks) == Result(codec, Run([], Consumed([], Initial)), chunks)
  {
  }

  lemma FirstLf(r: Bytes)
    requires LF !in r
    ensures FindByte(r + [LF], LF) == |r|
  {
    FindByteIs(r + [LF], LF, |r|);
  }

  lemma PlainBefore(codec: Codec, a: Bytes)
    requires forall i :: 0 <= i < |a| ==> 65 <= a[i] <= 90
    ensures var run := Run([], Consumed([], Initial));
      Rest(run.carry + a) == a && Before(codec, run, a) == run.sofar
  {
    hide Consume, FindByteFrom, ConsumeLines;
    assert [] + a == a;
    NoLfIsRest(a);
    NoLines(codec, Consumed([], Initial));
  }

  lemma PrefixFirst(pat: Bytes, s: Bytes)
    requires pat != []
    ensures Prefixes(pat, s) ==> s != [] && s[0] == pat[0]
  {
    assert |pat| <= |s| ==> s[..|pat|][0] == s[0];
  }

  lemma Braces(codec: Codec, c: Consumed, a: Bytes)
    requires c.output == [] && codec.json([123, 125]) == Ignored
    requires a != [] && forall i :: 0 <= i < |a| ==> 65 <= a[i] <= 90
    ensures CutFirst(codec, c, a, [123, 125, LF]).output == a
    ensures JoinedFirst(codec, c, a, [123, 125, LF]).output == a + [123, 125, LF]
  {
    hide FindByteFrom, FindByte, Snapshot, ControlRecord;
    var b: Bytes := [123, 125, LF];
    FindByteIs(b, LF, 2);
    var whole := a + [123, 125];
    assert b[..2] == [123, 125] && whole[0] == a[0] && whole[|whole| - 1] == 125;
    assert RStripCr([123, 125]) == [123, 125] && RStripCr(whole) == whole;
    PrefixFirst(CONTROL_PREFIX, whole);
    assert Strip([123, 125]) == [123, 125] && Strip(whole) == whole;
    assert [] + a + [] == a && [] + (whole + [LF]) == a + b;
  }

  lemma FirstDiffersIs(codec: Codec, c: Consumed, r: Bytes, b: Bytes)
    ensures FirstDiffers(codec, c, r, b) <==> CutFirst(codec, c, r, b) != JoinedFirst(codec, c, r, b)
  {
  }

  lemma {:induction false} NothingFollows(codec: Codec, c: Consumed, b: Bytes)
    ensures FindByte(b, LF) < 0 || FindByte(b, LF) + 1 == |b| ==> Continue(codec, c, b) == c
  {
    hide ConsumeLines, Consume, FindByteFrom;
    var n := FindByte(b, LF);
    if n >= 0 && n + 1 == |b| {
      OneStep(codec, Run([], c), []);
      NoLfFeed(codec, c, [], []);
      assert b[n + 1..] == [];
    }
  }

  lemma {:induction false} FirstOutputs(codec: Codec, c: Consumed, r: Bytes, b: Bytes)
    ensures CutFirst(codec, c, r, b).output != JoinedFirst(codec, c, r, b).output <==> OutputDiffers(codec, r, b)
  {
    hide Consume, RecordOutput, FindByteFrom, FindByte, RStripCr;
    var n := FindByte(b, LF);
    if n >= 0 {
      OutputOfRecord(codec, c.state, RStripCr(b[..n]));
      OutputOfRecord(codec, c.state, RStripCr(r + b[..n]));
      var x, y := RecordOutput(codec, RStripCr(b[..n])), RecordOutput(codec, RStripCr(r + b[..n]));
      Assoc(c.output, r, x);
      SamePart(c.output, r + x, y);
    } else {
      OutputOfRecord(codec, c.state, RStripCr(b));
      Assoc(c.output, r, b);
      SamePart(c.output + r, RecordOutput(codec, RStripCr(b)), b);
    }
  }

  lemma SamePart(h: Bytes, x: Bytes, y: Bytes)
    ensures h + x == h + y <==> x == y
  {
    if h + x == h + y {
      assert (h + x)[|h|..] == x && (h + y)[|h|..] == y;
    }
  }

  lemma SameEnd(x: Bytes, y: Bytes, t: Bytes)
    ensures x + t == y + t <==> x == y
  {
    if x + t == y + t {
      assert |x| == |y|;
      assert (x + t)[..|x|] == x && (y + t)[..|y|] == y;
    }
  }

  /** What follows writes the same after any two beginnings. */
  lemma {:induction false} ContinueOutput(codec: Codec, d: Consumed, e: Consumed, b: Bytes) returns (more: Bytes)
    ensures Continue(codec, d, b).output == d.output + more && Continue(codec, e, b).output == e.output + more
    ensures Continue(codec, d, b).output == Continue(codec, e, b).output <==> d.output == e.output
  {
    hide Consume, ConsumeLines, FindByteFrom, FindByte, RStripCr, Lines, Rest, Outputs;
    var n := FindByte(b, LF);
    if n >= 0 {
      more := ResultOutput(codec, d, b[n + 1..]);
      var same := ResultOutput(codec, e, b[n + 1..]);
    } else {
      more := [];
      assert d.output + [] == d.output && e.output + [] == e.output;
    }
    SameEnd(d.output, e.output, more);
  }

  /** What one more chunk and the end of the stream write. */
  function ChunkOutput(codec: Codec, b: Bytes): Bytes {
    Outputs(codec, Lines(b)) + if |Rest(b)| > MAX_CARRY then Rest(b)
      else if Rest(b) == [] then [] else Outputs(codec, [Rest(b)])
  }

  lemma {:induction false} ResultOutput(codec: Codec, c: Consumed, b: Bytes) returns (more: Bytes)
    ensures more == ChunkOutput(codec, b) && Result(codec, Run([], c), [b]).output == c.output + more
  {
    hide Consume, ConsumeLines, FindByteFrom, FindByte, RStripCr, Lines, Rest, Outputs;
    more := ChunkOutput(codec, b);
    OneStep(codec, Run([], c), b);
    assert [] + b == b;
    var lines := ConsumeLines(codec, c, Lines(b));
    OutputOfLines(codec, c, Lines(b));
    OutputOfLines(codec, lines, [Rest(b)]);
    Assoc(c.output, Outputs(codec, Lines(b)), Rest(b));
    Assoc(c.output, Outputs(codec, Lines(b)), Outputs(codec, [Rest(b)]));
    assert lines.output + [] == lines.output && Outputs(codec, Lines(b)) + [] == Outputs(codec, Lines(b));
  }

  lemma NoLfIsRest(r: Bytes)
    requires LF !in r
    ensures Lines(r) == [] && Rest(r) == r
  {
    hide FindByteFrom;
  }

  lemma NoLines(codec: Codec, c: Consumed)
    ensures ConsumeLines(codec, c, []) == c
  {
  }

  lemma OneStep(codec: Codec, run: Run, data: Bytes)
    ensures FeedAll(codec, run, [data]) == Feed(codec, run, data)
  {
    hide Feed;
    assert FeedAll(codec, run, [data]) == FeedAll(codec, Feed(codec, run, data), [data][1..]);
  }

  lemma TwoSteps(codec: Codec, run: Run, a: Bytes, b: Bytes)
    ensures FeedAll(codec, run, [a, b]) == Feed(codec, Feed(codec, run, a), b)
  {
    hide Feed;
    assert [a, b][1..] == [b];
    OneStep(codec, Feed(codec, run, a), b);
  }

  // ---- snapshots ----

  predicate InRange(p: Progress) {
    p.percent.Some? ==> 0.0 <= p.percent.value <= 100.0 && p.totalBytes > 0
  }

  /** Every snapshot's percentage is absent or within 0..100, for any input whatsoever. */
  lemma {:induction false} PercentInRange(codec: Codec, c: Consumed, ls: seq<Bytes>)
    requires InRange(c.state.latest)
    ensures InRange(ConsumeLines(codec, c, ls).state.latest)
    decreases |ls|
  {
    if ls != [] {
      RecordInRange(codec, c.state, RStripCr(ls[0]));
      var next := Consume(codec, c.state, RStripCr(ls[0]));
      hide Consume;
      PercentInRange(codec, Consumed(c.output + next.output, next.state), ls[1..]);
    }
  }

  lemma {:induction false} RecordInRange(codec: Codec, st: State, record: Bytes)
    requires InRange(st.latest)
    ensures InRange(Consume(codec, st, record).state.latest)
  {
    hide Strip, Prefixes, Clamp, Percent, Snapshot;
    forall st: State, phase, processed, total, path, finished
      ensures InRange(Snapshot(st, phase, processed, total, path, finished).latest)
    {
      SnapshotInRange(st, phase, processed, total, path, finished);
    }
  }

  lemma SnapshotInRange(st: State, phase: Phase, processed: Option<nat>, total: Option<nat>, path: Option<Bytes>,
                        finished: bool)
    ensures InRange(Snapshot(st, phase, processed, total, path, finished).latest)
  {
  }

  // ---- the filter object ----

  lemma {:induction false} OutputPrefix(codec: Codec, output: Bytes, c: Consumed, ls: seq<Bytes>)
    ensures var d := ConsumeLines(codec, c, ls);
      ConsumeLines(codec, Consumed(output + c.output, c.state), ls) == Consumed(output + d.output, d.state)
    decreases |ls|
  {
    hide Consume;
    if ls != [] {
      var next := Consume(codec, c.state, RStripCr(ls[0]));
      Assoc(output, c.output, next.output);
      OutputPrefix(codec, output, Consumed(c.output + next.output, next.state), ls[1..]);
    }
  }

  class BorgRestoreProgressStreamFilter {
    const codec: Codec
    var carry: Bytes
    var latest: Progress
    var processedFiles: nat
    var totalFiles: nat
    var baselineTotalBytes: nat

    function Current(): State
      reads this
    {
      State(latest, processedFiles, totalFiles, baselineTotalBytes)
    }

    constructor (codec: Codec)
      ensures this.codec == codec && carry == [] && Current() == Initial
    {
      this.codec := codec;
      carry := [];
      latest := Initial.latest;
      processedFiles, totalFiles, baselineTotalBytes := 0, 0, 0;
    }

    method ConsumeRecord(record: Bytes) returns (output: Bytes)
      modifies this`latest, this`processedFiles, this`totalFiles, this`baselineTotalBytes
      ensures Consumed(output, Current()) == Consume(codec, old(Current()), record)
    {
      hide Consume;
      var c := Consume(codec, Current(), record);
      latest, processedFiles := c.state.latest, c.state.processedFiles;
      totalFiles, baselineTotalBytes := c.state.totalFiles, c.state.baseline;
      output := c.output;
    }

    method FeedData(data: Bytes) returns (output: Bytes)
      modifies this
      ensures Run(carry, Consumed(output, Current()))
        == Feed(codec, Run(old(carry), Consumed([], old(Current()))), data)
    {
      hide Consume, FindByteFrom, RStripCr, ConsumeLines, Lines, Rest;
      var payload := carry + data;
      carry := [];
      output := [];
      var start := 0;
      ghost var all := ConsumeLines(codec, Consumed([], Current()), Lines(payload));
      assert payload[0..] == payload;
      while true
        invariant 0 <= start <= |payload| && carry == []
        invariant ConsumeLines(codec, Consumed(output, Current()), Lines(payload[start..])) == all
        invariant Rest(payload[start..]) == Rest(payload)
        decreases |payload| - start
      {
        var rest := payload[start..];
        var n := FindByte(rest, LF);
        if n < 0 {
          LastLine(rest);
          NoLines(codec, Consumed(output, Current()));
          if |rest| > MAX_CARRY {
            output := output + rest;
          } else {
            carry := rest;
          }
          return;
        }
        FirstLine(codec, Consumed(output, Current()), rest, n);
        assert payload[start + n + 1..] == rest[n + 1..];
        var filtered := ConsumeRecord(RStripCr(rest[..n]));
        output := output + filtered;
        start := start + n + 1;
      }
    }

    method FinalizeStream() returns (output: Bytes)
      modifies this
      ensures carry == []
      ensures Consumed(output, Current()) == Finalize(codec, Run(old(carry), Consumed([], old(Current()))))
    {
      hide Consume, ConsumeLines, RStripCr;
      if carry == [] {
        return [];
      }
      ConsumeOne(codec, Consumed([], Current()), carry);
      var record := RStripCr(carry);
      carry := [];
      output := ConsumeRecord(record);
      assert [] + output == output;
    }
  }

  lemma LastLine(s: Bytes)
    requires FindByte(s, LF) < 0
    ensures Lines(s) == [] && Rest(s) == s
  {
  }

  lemma {:induction false} FirstLine(codec: Codec, c: Consumed, s: Bytes, n: int)
    requires 0 <= n < |s| && n == FindByte(s, LF)
    ensures var next := Consume(codec, c.state, RStripCr(s[..n]));
      ConsumeLines(codec, c, Lines(s))
        == ConsumeLines(codec, Consumed(c.output + next.output, next.state), Lines(s[n + 1..]))
    ensures Rest(s) == Rest(s[n + 1..])
  {
    hide Consume, FindByteFrom, RStripCr;
    assert Lines(s) == [s[..n]] + Lines(s[n + 1..]);
    assert Lines(s)[1..] == Lines(s[n + 1..]);
  }

  /** Driving the filter over any chunks of any stream. */
  method FilterStream(codec: Codec, chunks: seq<Bytes>) returns (output: Bytes, latest: Progress)
    ensures Consumed(output, Process(codec, chunks).state) == Process(codec, chunks)
    ensures latest == Process(codec, chunks).state.latest && InRange(latest)
    ensures ShortRests([], chunks) ==>
      output == Reference(codec, Flatten(chunks)).output && latest == Reference(codec, Flatten(chunks)).state.latest
  {
    hide Consume, ConsumeLines, ShortRests, Lines, Rest, Reference, Feed, Finalize, FeedAll;
    var filter := new BorgRestoreProgressStreamFilter(codec);
    ghost var run := Run([], Consumed([], Initial));
    output := [];
    for i := 0 to |chunks|
      invariant filter.codec == codec
      invariant run == Run(filter.carry, Consumed(output, filter.Current())) && InRange(filter.latest)
      invariant FeedAll(codec, Run([], Consumed([], Initial)), chunks) == FeedAll(codec, run, chunks[i..])
    {
      FeedPrefix(codec, run, chunks[i]);
      FeedNext(codec, run, chunks, i);
      FeedInRange(codec, run, chunks[i]);
      var piece := filter.FeedData(chunks[i]);
      output := output + piece;
      run := Feed(codec, run, chunks[i]);
    }
    FinalizePrefix(codec, run);
    FinalizeInRange(codec, run);
    FeedDone(codec, run, chunks[|chunks|..]);
    var last := filter.FinalizeStream();
    output := output + last;
    latest := filter.latest;
    if ShortRests([], chunks) {
      ChunkInvariance(codec, chunks);
    }
  }

  lemma FeedInRange(codec: Codec, run: Run, data: Bytes)
    requires InRange(run.sofar.state.latest)
    ensures InRange(Feed(codec, run, data).sofar.state.latest)
  {
    hide ConsumeLines, Lines, Rest, InRange;
    PercentInRange(codec, run.sofar, Lines(run.carry + data));
  }

  lemma FinalizeInRange(codec: Codec, run: Run)
    requires InRange(run.sofar.state.latest)
    ensures InRange(Finalize(codec, run).state.latest)
  {
    hide ConsumeLines, InRange;
    PercentInRange(codec, run.sofar, [run.carry]);
  }

  lemma FeedDone(codec: Codec, run: Run, chunks: seq<Bytes>)
    requires chunks == []
    ensures FeedAll(codec, run, chunks) == run
  {
  }

  lemma FeedNext(codec: Codec, run: Run, chunks: seq<Bytes>, i: nat)
    requires i < |chunks|
    ensures FeedAll(codec, run, chunks[i..]) == FeedAll(codec, Feed(codec, run, chunks[i]), chunks[i + 1..])
  {
    hide Feed;
    assert chunks[i..][1..] == chunks[i + 1..];
  }

  lemma {:induction false} FeedPrefix(codec: Codec, run: Run, data: Bytes)
    ensures var one := Feed(codec, Run(run.carry, Consumed([], run.sofar.state)), data);
      Feed(codec, run, data) == Run(one.carry, Consumed(run.sofar.output + one.sofar.output, one.sofar.state))
  {
    hide ConsumeLines, Lines, Rest;
    var p := run.carry + data;
    var out := run.sofar.output;
    assert out + [] == out;
    OutputPrefix(codec, out, Consumed([], run.sofar.state), Lines(p));
    Assoc(out, ConsumeLines(codec, Consumed([], run.sofar.state), Lines(p)).output, Rest(p));
  }

  lemma {:induction false} FinalizePrefix(codec: Codec, run: Run)
    ensures var one := Finalize(codec, Run(run.carry, Consumed([], run.sofar.state)));
      Finalize(codec, run) == Consumed(run.sofar.output + one.output, one.state)
  {
    hide ConsumeLines;
    assert run.sofar.output + [] == run.sofar.output;
    OutputPrefix(codec, run.sofar.output, Consumed([], run.sofar.state), [run.carry]);
  }
}
