/** `BorgNetworkStreamFilter`: telemetry frames are cut out of the Borg output
    stream while it arrives in arbitrary chunks.

    The reference (`RefOutput`, `RefCounters`) reads the whole stream line by
    line and knows nothing of chunks, carries or cursors. */
module NetworkFilter {
  import opened ByteLines
  import opened Numerals
  import opened Options

  /** UTF-8 decoding with replacement followed by `strip`. */
  type Decoder = Bytes -> string

  /** A frame parser; everything about the stream holds for any of them. */
  type Parser = Bytes -> Option<Counter>

  /** The bytes RS "BBMNET" TAB. */
  const PREFIX: Bytes := [RS, 66, 66, 77, 78, 69, 84, TAB]

  datatype Counter = Counter(interface: string, ip: string, rx: nat, tx: nat, route: bool)

  // ---- one telemetry record ----

  function Fields(s: Bytes): (fs: seq<Bytes>)
    decreases |s|
  {
    var i := FindByte(s, TAB);
    if i < 0 then [s] else [s[..i]] + Fields(s[i + 1..])
  }

  predicate Label(f: Bytes) {
    f != [] && CR !in f && LF !in f
  }

  function Parse(decode: Decoder, record: Bytes): Option<Counter> {
    if !Prefixes(PREFIX, record) then None
    else
      var f := Fields(record[|PREFIX|..]);
      if !(4 <= |f| <= 5) || !Label(f[0]) || !Label(f[1]) || !Digits(f[2]) || !Digits(f[3])
        || (|f| == 5 && f[4] != [48] && f[4] != [49]) then None
      else if |f[2]| > MAX_DIGITS || |f[3]| > MAX_DIGITS then None
      else Some(Counter(decode(f[0]), decode(f[1]), Natural(f[2]), Natural(f[3]), |f| == 4 || f[4] == [49]))
  }

  function ParserOf(decode: Decoder): Parser {
    r => Parse(decode, r)
  }

  // ---- the reference: whole stream, line by line ----

  /** What stays of a terminated line: everything before a valid frame. */
  function LineOutput(parse: Parser, l: Bytes): Bytes {
    var m := Find(l, PREFIX, 0);
    if m >= 0 && parse(l[m..]).Some? then l[..m] else l + [LF]
  }

  function LineCounters(parse: Parser, l: Bytes): seq<Counter> {
    var m := Find(l, PREFIX, 0);
    if m >= 0 && parse(l[m..]).Some? then [parse(l[m..]).value] else []
  }

  function LinesOutput(parse: Parser, ls: seq<Bytes>): Bytes {
    FlatMap(l => LineOutput(parse, l), ls)
  }

  function LinesCounters(parse: Parser, ls: seq<Bytes>): seq<Counter> {
    FlatMap(l => LineCounters(parse, l), ls)
  }

  /** The unterminated end of a stream may carry trailing CRs. */
  function RestCounters(parse: Parser, r: Bytes): seq<Counter> {
    var m := Find(r, PREFIX, 0);
    if m >= 0 && parse(RStrip(r[m..])).Some? then [parse(RStrip(r[m..])).value] else []
  }

  function RestOutput(parse: Parser, r: Bytes): Bytes {
    if RestCounters(parse, r) == [] then r else r[..Find(r, PREFIX, 0)]
  }

  function RefOutput(parse: Parser, s: Bytes): Bytes {
    LinesOutput(parse, Lines(s)) + RestOutput(parse, Rest(s))
  }

  function RefCounters(parse: Parser, s: Bytes): seq<Counter> {
    LinesCounters(parse, Lines(s)) + RestCounters(parse, Rest(s))
  }

  // ---- job traffic from the counters of the route interface ----

  datatype Baseline = Baseline(interface: string, rx: nat, tx: nat)
  datatype Traffic = Traffic(baseline: Option<Baseline>, download: nat, upload: nat,
                             routeInterface: string, routeIp: string)

  const NoTraffic := Traffic(None, 0, 0, "", "")

  function Apply(t: Traffic, c: Counter): Traffic {
    if !c.route then t
    else if t.baseline.None? || t.baseline.value.interface != c.interface then
      Traffic(Some(Baseline(c.interface, c.rx, c.tx)), 0, 0, c.interface, c.ip)
    else
      var b := t.baseline.value;
      Traffic(t.baseline,
              if c.rx >= b.rx then c.rx - b.rx else t.download,
              if c.tx >= b.tx then c.tx - b.tx else t.upload,
              c.interface, c.ip)
  }

  function ApplyAll(t: Traffic, cs: seq<Counter>): Traffic
    decreases |cs|
  {
    if cs == [] then t else ApplyAll(Apply(t, cs[0]), cs[1..])
  }

  lemma ApplyAppend(t: Traffic, a: seq<Counter>, b: seq<Counter>)
    ensures ApplyAll(t, a + b) == ApplyAll(ApplyAll(t, a), b)
    decreases |a|
  {
    if a == [] {
      assert a + b == b;
    } else {
      assert (a + b)[1..] == a[1..] + b;
      ApplyAppend(Apply(t, a[0]), a[1..], b);
    }
  }

  // ---- one call of `feed` on carry + data ----

  datatype Scanned = Scanned(output: Bytes, counters: seq<Counter>, carry: Bytes)

  /** Where the bytes that must be carried over start, if no frame is complete. */
  function Cut(r: Bytes): (k: nat)
    ensures k <= |r|
  {
    var m := Find(r, PREFIX, 0);
    if m >= 0 then m
    else
      var k := RFindByte(r, RS);
      if k >= 0 && Prefixes(r[k..], PREFIX) then k else |r|
  }

  function Scan(parse: Parser, p: Bytes): Scanned
    decreases |p|, 1
  {
    var m := Find(p, PREFIX, 0);
    if m < 0 then Scanned(p[..Cut(p)], [], p[Cut(p)..])
    else ScanMarker(parse, p[..m], p[m..])
  }

  /** `q` starts with a marker; `before` is what precedes it. */
  function ScanMarker(parse: Parser, before: Bytes, q: Bytes): Scanned
    decreases |q|, 0
  {
    var n := FindByte(q, LF);
    if n < 0 then Scanned(before, [], q)
    else
      var s := Scan(parse, q[n + 1..]);
      var c := parse(q[..n]);
      if c.None? then s.(output := before + (q[..n + 1] + s.output))
      else s.(output := before + s.output, counters := [c.value] + s.counters)
  }

  // ---- the scan of a whole payload is the line-by-line reading ----

  function Emitted(parse: Parser, s: Bytes): Bytes {
    LinesOutput(parse, Lines(s)) + Rest(s)[..Cut(Rest(s))]
  }

  function CarryOf(s: Bytes): Bytes {
    Rest(s)[Cut(Rest(s))..]
  }

  lemma FindIs(s: Bytes, i: int)
    requires OccursAt(s, PREFIX, i) && forall j :: 0 <= j < i ==> !OccursAt(s, PREFIX, j)
    ensures Find(s, PREFIX, 0) == i
  {
  }

  lemma OccursShift(a: Bytes, b: Bytes, j: int)
    ensures j >= 0 ==> OccursAt(b, PREFIX, j) == OccursAt(a + b, PREFIX, |a| + j)
    ensures OccursAt(a, PREFIX, j) ==> OccursAt(a + b, PREFIX, j)
    ensures j + |PREFIX| <= |a| && OccursAt(a + b, PREFIX, j) ==> OccursAt(a, PREFIX, j)
  {
    if j >= 0 && j + |PREFIX| <= |b| {
      assert (a + b)[|a| + j..|a| + j + |PREFIX|] == b[j..j + |PREFIX|];
    }
    if j >= 0 && j + |PREFIX| <= |a| {
      assert (a + b)[j..j + |PREFIX|] == a[j..j + |PREFIX|];
    }
  }

  /** If no marker of `a + b` starts inside `a`, searching `a + b` is searching `b`. */
  lemma FindSkips(a: Bytes, b: Bytes)
    requires forall j :: 0 <= j < |a| ==> !OccursAt(a + b, PREFIX, j)
    ensures Find(a + b, PREFIX, 0) == if Find(b, PREFIX, 0) < 0 then -1 else |a| + Find(b, PREFIX, 0)
  {
    var f := Find(b, PREFIX, 0);
    forall j | 0 <= j ensures OccursAt(b, PREFIX, j) == OccursAt(a + b, PREFIX, |a| + j) {
      OccursShift(a, b, j);
    }
    forall j | OccursAt(a + b, PREFIX, j) ensures OccursAt(b, PREFIX, j - |a|) {
      assert j == |a| + (j - |a|);
    }
    if f >= 0 {
      FindIs(a + b, |a| + f);
    }
  }

  /** A marker contains no LF, so it lies within one line. */
  lemma MarkerHasNoLf(s: Bytes, i: int, j: int)
    requires OccursAt(s, PREFIX, j) && 0 <= i < |s| && s[i] == LF
    ensures i < j || j + |PREFIX| <= i
  {
  }

  lemma MarkerInLine(l: Bytes, t: Bytes)
    ensures var p := l + [LF] + t;
      Find(l, PREFIX, 0) >= 0 ==> Find(p, PREFIX, 0) == Find(l, PREFIX, 0)
    ensures var p := l + [LF] + t;
      Find(l, PREFIX, 0) < 0 ==> forall j :: 0 <= j < |l| + 1 ==> !OccursAt(p, PREFIX, j)
  {
    var p := l + [LF] + t;
    assert p == l + ([LF] + t) && p[|l|] == LF;
    forall j | 0 <= j < |l| + 1
      ensures OccursAt(p, PREFIX, j) == OccursAt(l, PREFIX, j)
    {
      OccursShift(l, [LF] + t, j);
      if OccursAt(p, PREFIX, j) {
        MarkerHasNoLf(p, |l|, j);
      }
    }
    if Find(l, PREFIX, 0) >= 0 {
      FindIs(p, Find(l, PREFIX, 0));
    }
  }

  /** Scanning is compositional over lines. */
  lemma {:induction false} ScanFirstLine(parse: Parser, l: Bytes, t: Bytes)
    requires FindByte(l, LF) < 0
    ensures Scan(parse, l + [LF] + t)
      == Scanned(LineOutput(parse, l) + Scan(parse, t).output,
                 LineCounters(parse, l) + Scan(parse, t).counters,
                 Scan(parse, t).carry)
  {
    hide Scan, OccursAt, FindByteFrom;
    if Find(l, PREFIX, 0) >= 0 {
      ScanMarkedLine(parse, l, t);
    } else {
      ScanPlainLine(parse, l, t);
    }
  }

  lemma {:induction false} ScanMarkedLine(parse: Parser, l: Bytes, t: Bytes)
    requires FindByte(l, LF) < 0 && Find(l, PREFIX, 0) >= 0
    ensures Scan(parse, l + [LF] + t)
      == Scanned(LineOutput(parse, l) + Scan(parse, t).output,
                 LineCounters(parse, l) + Scan(parse, t).counters,
                 Scan(parse, t).carry)
  {
    var p := l + [LF] + t;
    MarkerInLine(l, t);
    var m := Find(l, PREFIX, 0);
    ScanMarkerLine(parse, l[..m], l[m..], t);
    MarkedSlices(l, m, t);
  }

  lemma MarkedSlices(l: Bytes, m: nat, t: Bytes)
    requires m <= |l|
    ensures (l + [LF] + t)[..m] == l[..m] && (l + [LF] + t)[m..] == l[m..] + [LF] + t
    ensures l[..m] + (l[m..] + [LF]) == l + [LF]
  {
  }

  lemma {:induction false} ScanPlainLine(parse: Parser, l: Bytes, t: Bytes)
    requires Find(l, PREFIX, 0) < 0
    ensures Scan(parse, l + [LF] + t) == Scan(parse, t).(output := l + [LF] + Scan(parse, t).output)
  {
    MarkerInLine(l, t);
    FindSkips(l + [LF], t);
    if Find(t, PREFIX, 0) >= 0 {
      ScanShift(parse, l + [LF], t);
    } else {
      CutShiftLine(l, t);
      CutSlices(l + [LF], t);
    }
  }

  lemma CutSlices(a: Bytes, t: Bytes)
    requires Cut(a + t) == |a| + Cut(t)
    ensures (a + t)[..Cut(a + t)] == a + t[..Cut(t)] && (a + t)[Cut(a + t)..] == t[Cut(t)..]
  {
  }

  lemma {:induction false} ScanMarkerLine(parse: Parser, before: Bytes, q: Bytes, t: Bytes)
    requires FindByte(q, LF) < 0
    ensures ScanMarker(parse, before, q + [LF] + t)
      == Scanned((if parse(q).Some? then before else before + (q + [LF])) + Scan(parse, t).output,
                 (if parse(q).Some? then [parse(q).value] else []) + Scan(parse, t).counters,
                 Scan(parse, t).carry)
  {
    var p := q + [LF] + t;
    FindByteIs(p, LF, |q|);
    assert p[..|q|] == q && p[..|q| + 1] == q + [LF] && p[|q| + 1..] == t;
    Assoc(before, q + [LF], Scan(parse, t).output);
  }

  lemma {:induction false} ScanShift(parse: Parser, a: Bytes, t: Bytes)
    requires Find(t, PREFIX, 0) >= 0 && Find(a + t, PREFIX, 0) == |a| + Find(t, PREFIX, 0)
    ensures Scan(parse, a + t) == Scan(parse, t).(output := a + Scan(parse, t).output)
  {
    hide FindByteFrom, OccursAt, Cut, FindByte, ScanMarker;
    var m := Find(t, PREFIX, 0);
    assert (a + t)[|a| + m..] == t[m..];
    assert (a + t)[..|a| + m] == a + t[..m];
    PrependOutput(parse, a, t[..m], t[m..]);
  }

  lemma {:induction false} PrependOutput(parse: Parser, a: Bytes, before: Bytes, q: Bytes)
    ensures var s := ScanMarker(parse, before, q);
      ScanMarker(parse, a + before, q) == s.(output := a + s.output)
  {
    hide Find, FindByteFrom, OccursAt, Cut;
    var n := FindByte(q, LF);
    if n >= 0 {
      var s := Scan(parse, q[n + 1..]);
      Assoc(a, before, s.output);
      Assoc(a, before, q[..n + 1] + s.output);
    }
  }

  lemma RFindIs(s: Bytes, b: Byte, i: int)
    requires -1 <= i < |s| && (i >= 0 ==> s[i] == b) && forall k :: i < k < |s| ==> s[k] != b
    ensures RFindByte(s, b) == i
  {
  }

  lemma PartialHasNoLf(s: Bytes, q: nat)
    requires q <= |s| && Prefixes(s[q..], PREFIX)
    ensures forall k :: q <= k < |s| ==> s[k] != LF
  {
    forall k | q <= k < |s| ensures s[k] != LF {
      assert s[k] == s[q..][k - q] == PREFIX[k - q];
    }
  }

  lemma {:induction false} CutShiftLine(l: Bytes, t: Bytes)
    requires Find(l + [LF] + t, PREFIX, 0) < 0 && Find(t, PREFIX, 0) < 0
    ensures Cut(l + [LF] + t) == |l| + 1 + Cut(t)
  {
    hide FindByteFrom, OccursAt, RFindByteBefore, Find, Prefixes, Flatten, Break;
    var p := l + [LF] + t;
    var k := RFindByte(t, RS);
    var q := RFindByte(p, RS);
    if k >= 0 {
      RFindIs(p, RS, |l| + 1 + k);
      assert p[|l| + 1 + k..] == t[k..];
    } else if q >= 0 {
      assert q <= |l| by {
        assert forall i :: 0 <= i < |t| ==> p[|l| + 1 + i] == t[i];
      }
      assert p[|l|] == LF;
      if Prefixes(p[q..], PREFIX) {
        PartialHasNoLf(p, q);
      }
    }
  }

  lemma {:induction false} ScanIsReference(parse: Parser, p: Bytes)
    ensures Scan(parse, p) == Scanned(Emitted(parse, p), LinesCounters(parse, Lines(p)), CarryOf(p))
    decreases |p|
  {
    var i := FindByte(p, LF);
    if i < 0 {
      ScanWithoutLf(parse, p);
    } else {
      var l, t := p[..i], p[i + 1..];
      assert p == l + [LF] + t;
      ScanFirstLine(parse, l, t);
      ScanIsReference(parse, t);
      assert Lines(p) == [l] + Lines(t);
      Assoc(LineOutput(parse, l), LinesOutput(parse, Lines(t)), Rest(t)[..Cut(Rest(t))]);
    }
  }

  lemma {:induction false} ScanWithoutLf(parse: Parser, p: Bytes)
    requires FindByte(p, LF) < 0
    ensures Scan(parse, p) == Scanned(p[..Cut(p)], [], p[Cut(p)..])
    ensures Lines(p) == [] && Rest(p) == p
    ensures Emitted(parse, p) == p[..Cut(p)]
  {
    var m := Find(p, PREFIX, 0);
    if m >= 0 {
      assert FindByte(p[m..], LF) < 0;
    }
    assert [] + p[..Cut(p)] == p[..Cut(p)];
  }

  // ---- feeding more data to a carry is reading the longer stream ----

  lemma {:induction false} NoMarkerBeforeCut(r: Bytes, y: Bytes)
    ensures forall j :: 0 <= j < Cut(r) ==> !OccursAt(r + y, PREFIX, j)
  {
    forall j | 0 <= j < Cut(r) && OccursAt(r + y, PREFIX, j)
      ensures false
    {
      OccursShift(r, y, j);
      if j + |PREFIX| > |r| {
        StraddlingMarker(r, y, j);
      }
    }
  }

  /** A marker reaching over the end of `r` starts at the last RS of `r`. */
  lemma {:induction false} StraddlingMarker(r: Bytes, y: Bytes, j: nat)
    requires OccursAt(r + y, PREFIX, j) && j < |r| < j + |PREFIX| && Find(r, PREFIX, 0) < 0
    ensures Cut(r) == j
  {
    var n := |r| - j;
    assert r[j..] == (r + y)[j..j + |PREFIX|][..n] == PREFIX[..n];
    forall k | j <= k < |r| ensures r[k] == PREFIX[k - j] {
      assert r[k] == r[j..][k - j];
    }
    RFindIs(r, RS, j);
  }

  lemma {:induction false} FindFromCut(r: Bytes, y: Bytes)
    ensures var f := Find(r[Cut(r)..] + y, PREFIX, 0);
      Find(r + y, PREFIX, 0) == if f < 0 then -1 else Cut(r) + f
  {
    NoMarkerBeforeCut(r, y);
    assert r + y == r[..Cut(r)] + (r[Cut(r)..] + y);
    FindSkips(r[..Cut(r)], r[Cut(r)..] + y);
  }

  lemma JoinAtCut(r: Bytes, y: Bytes)
    ensures r + y == r[..Cut(r)] + (r[Cut(r)..] + y)
  {
  }

  /** `Find` in `a + q` is `Find` in `q`. */
  predicate Shifted(a: Bytes, q: Bytes) {
    Find(a + q, PREFIX, 0) == if Find(q, PREFIX, 0) < 0 then -1 else |a| + Find(q, PREFIX, 0)
  }

  lemma {:induction false} CutFromCut(r: Bytes, y: Bytes)
    ensures Shifted(r[..Cut(r)], r[Cut(r)..] + y)
    ensures Cut(r + y) == Cut(r) + Cut(r[Cut(r)..] + y)
  {
    FindFromCut(r, y);
    JoinAtCut(r, y);
    if Find(r + y, PREFIX, 0) < 0 && RFindByte(r + y, RS) < Cut(r) {
      assert forall n :: Cut(r) <= n < |r| ==> r[n] == (r + y)[n];
      LostRs(r, y, RFindByte(r + y, RS));
    }
    CutShift(r[..Cut(r)], r[Cut(r)..] + y);
  }

  lemma {:induction false} CutShift(a: Bytes, q: Bytes)
    requires Shifted(a, q)
    requires Find(a + q, PREFIX, 0) < 0 ==>
      var i := RFindByte(a + q, RS);
      i >= |a| || i < 0 || !Prefixes((a + q)[i..], PREFIX)
    ensures Cut(a + q) == |a| + Cut(q)
  {
    if Find(a + q, PREFIX, 0) < 0 {
      var i := RFindByte(a + q, RS);
      if i >= |a| {
        RFindShift(a, q);
        assert q[i - |a|..] == (a + q)[i..];
      } else {
        NoRsAfter(a, q);
      }
    }
  }

  lemma {:induction false} RFindShift(a: Bytes, q: Bytes)
    requires RFindByte(a + q, RS) >= |a|
    ensures RFindByte(q, RS) == RFindByte(a + q, RS) - |a|
  {
    var i := RFindByte(a + q, RS) - |a|;
    forall n | i < n < |q| ensures q[n] != RS {
      assert q[n] == (a + q)[|a| + n];
    }
    RFindIs(q, RS, i);
  }

  lemma {:induction false} NoRsAfter(a: Bytes, q: Bytes)
    requires RFindByte(a + q, RS) < |a|
    ensures RFindByte(q, RS) == -1
  {
    forall n | 0 <= n < |q| ensures q[n] != RS {
      assert q[n] == (a + q)[|a| + n];
    }
    RFindIs(q, RS, -1);
  }

  /** An RS before the cut never becomes the start of a marker. */
  lemma {:induction false} LostRs(r: Bytes, y: Bytes, i: int)
    requires i == RFindByte(r + y, RS) && i < Cut(r) && Find(r + y, PREFIX, 0) < 0
    requires forall n :: Cut(r) <= n < |r| ==> r[n] != RS
    ensures i < 0 || !Prefixes((r + y)[i..], PREFIX)
    ensures Cut(r) == |r|
  {
    FindFromCut(r, y);
    if Find(r, PREFIX, 0) >= 0 {
      OccursShift(r, y, Find(r, PREFIX, 0));
    }
    if i >= 0 && Prefixes((r + y)[i..], PREFIX) {
      assert (r + y)[i..][..|r| - i] == r[i..];
      assert r[i] == RS;
      forall n | i < n < |r| ensures r[n] != RS {
        assert (r + y)[n] == r[n];
      }
      RFindIs(r, RS, i);
    }
  }

  lemma {:induction false} LineShift(parse: Parser, a: Bytes, q: Bytes)
    requires Shifted(a, q)
    ensures LineOutput(parse, a + q) == a + LineOutput(parse, q)
    ensures LineCounters(parse, a + q) == LineCounters(parse, q)
  {
    var f := Find(q, PREFIX, 0);
    Assoc(a, q, [LF]);
    if f >= 0 {
      SliceFrom(a, q, f);
    }
  }

  lemma SliceFrom(a: Bytes, q: Bytes, f: nat)
    requires f <= |q|
    ensures (a + q)[|a| + f..] == q[f..] && (a + q)[..|a| + f] == a + q[..f]
  {
  }

  lemma {:induction false} EmittedFromCut(parse: Parser, r: Bytes, x: Bytes)
    requires FindByte(r, LF) < 0
    ensures Emitted(parse, r + x) == r[..Cut(r)] + Emitted(parse, r[Cut(r)..] + x)
    ensures CarryOf(r + x) == CarryOf(r[Cut(r)..] + x)
    ensures LinesCounters(parse, Lines(r + x)) == LinesCounters(parse, Lines(r[Cut(r)..] + x))
  {
    var i := FindByte(x, LF);
    if i < 0 {
      EmittedFromCutInLine(parse, r, x);
    } else {
      var y, t := x[..i], x[i + 1..];
      FirstLine(r, y, t);
      FirstLine(r[Cut(r)..], y, t);
      assert x == y + [LF] + t;
      CutFromCut(r, y);
      JoinAtCut(r, y);
      LineShift(parse, r[..Cut(r)], r[Cut(r)..] + y);
      var e := LinesOutput(parse, Lines(t)) + Rest(t)[..Cut(Rest(t))];
      EmittedLine(parse, r + y, t);
      EmittedLine(parse, r[Cut(r)..] + y, t);
      Assoc(r[..Cut(r)], LineOutput(parse, r[Cut(r)..] + y), e);
    }
  }

  lemma {:induction false} FirstLine(r: Bytes, y: Bytes, t: Bytes)
    requires FindByte(r, LF) < 0 && FindByte(y, LF) < 0
    ensures r + (y + [LF] + t) == r + y + [LF] + t
    ensures FindByte(r + y, LF) < 0
  {
    FindByteAppend(r, y, LF);
  }

  lemma {:induction false} EmittedLine(parse: Parser, l: Bytes, t: Bytes)
    requires FindByte(l, LF) < 0
    ensures Emitted(parse, l + [LF] + t) == LineOutput(parse, l) + Emitted(parse, t)
    ensures CarryOf(l + [LF] + t) == CarryOf(t)
    ensures LinesCounters(parse, Lines(l + [LF] + t)) == LineCounters(parse, l) + LinesCounters(parse, Lines(t))
  {
    var p := l + [LF] + t;
    FindByteIs(p, LF, |l|);
    assert p[..|l|] == l && p[|l| + 1..] == t;
    assert Lines(p) == [l] + Lines(t);
    assert Rest(p) == Rest(t);
    Assoc(LineOutput(parse, l), LinesOutput(parse, Lines(t)), Rest(t)[..Cut(Rest(t))]);
  }

  lemma {:induction false} EmittedFromCutInLine(parse: Parser, r: Bytes, x: Bytes)
    requires FindByte(r, LF) < 0 && FindByte(x, LF) < 0
    ensures Emitted(parse, r + x) == r[..Cut(r)] + Emitted(parse, r[Cut(r)..] + x)
    ensures CarryOf(r + x) == CarryOf(r[Cut(r)..] + x)
    ensures Lines(r + x) == Lines(r[Cut(r)..] + x) == []
  {
    FindByteAppend(r, x, LF);
    FindByteAppend(r[Cut(r)..], x, LF);
    CutFromCut(r, x);
    JoinAtCut(r, x);
    EmittedShift(parse, r[..Cut(r)], r[Cut(r)..] + x);
  }

  lemma {:induction false} EmittedShift(parse: Parser, a: Bytes, q: Bytes)
    requires FindByte(a + q, LF) < 0 && FindByte(q, LF) < 0 && Cut(a + q) == |a| + Cut(q)
    ensures Emitted(parse, a + q) == a + Emitted(parse, q)
    ensures CarryOf(a + q) == CarryOf(q)
    ensures Lines(a + q) == Lines(q) == []
  {
    SliceFrom(a, q, Cut(q));
    ScanWithoutLf(parse, a + q);
    ScanWithoutLf(parse, q);
  }

  lemma {:induction false} LinesOutputAppend(parse: Parser, a: seq<Bytes>, b: seq<Bytes>)
    ensures LinesOutput(parse, a + b) == LinesOutput(parse, a) + LinesOutput(parse, b)
    ensures LinesCounters(parse, a + b) == LinesCounters(parse, a) + LinesCounters(parse, b)
  {
    FlatMapAppend(l => LineOutput(parse, l), a, b);
    FlatMapAppend(l => LineCounters(parse, l), a, b);
  }

  /** One `feed`: what was emitted, counted and carried for `s` becomes that for `s + x`. */
  lemma {:induction false} FeedExtends(parse: Parser, s: Bytes, x: Bytes)
    ensures Emitted(parse, s + x) == Emitted(parse, s) + Scan(parse, CarryOf(s) + x).output
    ensures CarryOf(s + x) == Scan(parse, CarryOf(s) + x).carry
    ensures LinesCounters(parse, Lines(s + x))
      == LinesCounters(parse, Lines(s)) + Scan(parse, CarryOf(s) + x).counters
  {
    var r := Rest(s);
    LinesAppend(s, x);
    LinesOutputAppend(parse, Lines(s), Lines(r + x));
    EmittedFromCut(parse, r, x);
    ScanIsReference(parse, CarryOf(s) + x);
    var done, e := LinesOutput(parse, Lines(s)), Emitted(parse, CarryOf(s) + x);
    Assoc(done, r[..Cut(r)], e);
    Assoc(done, LinesOutput(parse, Lines(r + x)), Rest(r + x)[..Cut(Rest(r + x))]);
  }

  // ---- a whole run: any chunks, then finalize ----

  /** Frames are never shorter than their marker. */
  ghost predicate RejectsShort(parse: Parser) {
    forall r :: |r| < |PREFIX| ==> parse(r).None?
  }

  datatype Run = Run(carry: Bytes, output: Bytes, counters: seq<Counter>, traffic: Traffic)

  const Start := Run([], [], [], NoTraffic)

  function Feed(parse: Parser, run: Run, data: Bytes): Run {
    var f := Scan(parse, run.carry + data);
    Run(f.carry, run.output + f.output, run.counters + f.counters, ApplyAll(run.traffic, f.counters))
  }

  function FeedAll(parse: Parser, run: Run, chunks: seq<Bytes>): Run
    decreases |chunks|
  {
    if chunks == [] then run else FeedAll(parse, Feed(parse, run, chunks[0]), chunks[1..])
  }

  function FinalCounters(parse: Parser, carry: Bytes): seq<Counter> {
    if carry != [] && parse(RStrip(carry)).Some? then [parse(RStrip(carry)).value] else []
  }

  function Finalize(parse: Parser, run: Run): Run {
    var cs := FinalCounters(parse, run.carry);
    Run([], run.output + (if cs == [] then run.carry else []), run.counters + cs, ApplyAll(run.traffic, cs))
  }

  function Process(parse: Parser, chunks: seq<Bytes>): Run {
    Finalize(parse, FeedAll(parse, Start, chunks))
  }

  function StateFor(parse: Parser, s: Bytes): Run {
    var cs := LinesCounters(parse, Lines(s));
    Run(CarryOf(s), Emitted(parse, s), cs, ApplyAll(NoTraffic, cs))
  }

  lemma {:induction false} FeedAllState(parse: Parser, s: Bytes, chunks: seq<Bytes>)
    ensures FeedAll(parse, StateFor(parse, s), chunks) == StateFor(parse, s + Flatten(chunks))
    decreases |chunks|
  {
    if chunks == [] {
      assert s + [] == s;
    } else {
      FeedExtends(parse, s, chunks[0]);
      ApplyAppend(NoTraffic, LinesCounters(parse, Lines(s)), Scan(parse, CarryOf(s) + chunks[0]).counters);
      FeedAllState(parse, s + chunks[0], chunks[1..]);
      Assoc(s, chunks[0], Flatten(chunks[1..]));
    }
  }

  lemma {:induction false} FinalizeIsReference(parse: Parser, s: Bytes)
    requires RejectsShort(parse)
    ensures Finalize(parse, StateFor(parse, s)).output == RefOutput(parse, s)
    ensures FinalCounters(parse, CarryOf(s)) == RestCounters(parse, Rest(s))
  {
    hide FindByteFrom, OccursAt, FindByte, Find, Cut, RStrip, RestCounters, RestOutput, FinalCounters;
    var r := Rest(s);
    var k := Cut(r);
    var done := LinesOutput(parse, Lines(s));
    RestFinal(parse, r);
    Assoc(done, r[..k], r[k..]);
    Assoc(done, r[..k], []);
  }

  /** The unterminated end alone: what was emitted, and what finalizing adds. */
  lemma {:induction false} RestFinal(parse: Parser, r: Bytes)
    requires RejectsShort(parse)
    ensures FinalCounters(parse, r[Cut(r)..]) == RestCounters(parse, r)
    ensures r[..Cut(r)] + (if RestCounters(parse, r) == [] then r[Cut(r)..] else []) == RestOutput(parse, r)
  {
    hide FindByteFrom, OccursAt, FindByte, RFindByteBefore, RFindByte, Prefixes;
    var k := Cut(r);
    assert r[..k] + r[k..] == r && r[..k] + [] == r[..k];
    if Find(r, PREFIX, 0) < 0 {
      PartialIsShort(r);
    }
  }

  lemma {:induction false} PartialIsShort(r: Bytes)
    requires Find(r, PREFIX, 0) < 0
    ensures |r| - Cut(r) < |PREFIX|
  {
    assert |r| - Cut(r) == |PREFIX| ==> OccursAt(r, PREFIX, Cut(r));
  }

  /** Output, counter records and job traffic depend on the bytes alone, never on the chunking. */
  lemma {:induction false} ChunkInvariance(parse: Parser, chunks: seq<Bytes>)
    requires RejectsShort(parse)
    ensures var s := Flatten(chunks);
      Process(parse, chunks) == Run([], RefOutput(parse, s), RefCounters(parse, s),
                                    ApplyAll(NoTraffic, RefCounters(parse, s)))
  {
    var s := Flatten(chunks);
    assert StateFor(parse, []) == Start;
    FeedAllState(parse, [], chunks);
    assert [] + s == s;
    FinalizeIsReference(parse, s);
    ApplyAppend(NoTraffic, LinesCounters(parse, Lines(s)), RestCounters(parse, Rest(s)));
  }

  lemma ParserRejectsShort(decode: Decoder)
    ensures RejectsShort(ParserOf(decode))
  {
  }

  /** While the route stays on one interface and its counters never go back,
      the totals are the newest reading minus the first one. */
  lemma {:induction false} TrafficIsDelta(c: Counter, cs: seq<Counter>)
    requires c.route && forall k :: 0 <= k < |cs| ==> cs[k].route && cs[k].interface == c.interface
    requires forall j, k :: 0 <= j < k < |cs| ==> cs[j].rx <= cs[k].rx && cs[j].tx <= cs[k].tx
    requires cs != [] ==> c.rx <= cs[0].rx && c.tx <= cs[0].tx
    ensures var t := ApplyAll(NoTraffic, [c] + cs);
      var last := if cs == [] then c else cs[|cs| - 1];
      t.baseline == Some(Baseline(c.interface, c.rx, c.tx))
      && t.download == last.rx - c.rx && t.upload == last.tx - c.tx
    decreases |cs|
  {
    if cs == [] {
      assert ApplyAll(NoTraffic, [c]) == ApplyAll(Apply(NoTraffic, c), [c][1..]);
    } else {
      var n := |cs| - 1;
      TrafficIsDelta(c, cs[..n]);
      assert [c] + cs == ([c] + cs[..n]) + [cs[n]];
      ApplyAppend(NoTraffic, [c] + cs[..n], [cs[n]]);
      var t := ApplyAll(NoTraffic, [c] + cs[..n]);
      assert ApplyAll(t, [cs[n]]) == ApplyAll(Apply(t, cs[n]), [cs[n]][1..]);
    }
  }

  // ---- the cursor loop of the source ----

  lemma {:induction false} FindFrom(s: Bytes, from: nat)
    requires from <= |s|
    ensures var f := Find(s[from..], PREFIX, 0);
      Find(s, PREFIX, from) == if f < 0 then -1 else from + f
  {
    assert s == s[..from] + s[from..];
    forall j: nat ensures OccursAt(s[from..], PREFIX, j) == OccursAt(s, PREFIX, from + j) {
      OccursShift(s[..from], s[from..], j);
    }
    forall j | from <= j && OccursAt(s, PREFIX, j) ensures OccursAt(s[from..], PREFIX, j - from) {
      assert j == from + (j - from);
    }
  }

  /** The loop has produced `output` and `counters` and still has `rest` to read. */
  ghost predicate Reached(parse: Parser, whole: Scanned, output: Bytes, counters: seq<Counter>, rest: Bytes) {
    var s := Scan(parse, rest);
    whole == Scanned(output + s.output, counters + s.counters, s.carry)
  }

  lemma {:induction false} ReachedStart(parse: Parser, payload: Bytes)
    ensures Reached(parse, Scan(parse, payload), [], [], payload[0..])
  {
    var s := Scan(parse, payload);
    assert payload[0..] == payload && [] + s.output == s.output;
  }

  lemma {:induction false} ReachedEnd(parse: Parser, whole: Scanned, output: Bytes, counters: seq<Counter>, rest: Bytes)
    requires Reached(parse, whole, output, counters, rest) && Find(rest, PREFIX, 0) < 0
    ensures whole == Scanned(output + rest[..Cut(rest)], counters, rest[Cut(rest)..])
  {
    assert counters + [] == counters;
  }

  lemma {:induction false} ReachedOpenFrame(parse: Parser, whole: Scanned, output: Bytes, counters: seq<Counter>,
                                            p: Bytes, m: nat)
    requires Find(p, PREFIX, 0) == m && FindByte(p[m..], LF) < 0
    requires Reached(parse, whole, output, counters, p)
    ensures whole == Scanned(output + p[..m], counters, p[m..])
  {
    assert Scan(parse, p) == ScanMarker(parse, p[..m], p[m..]) == Scanned(p[..m], [], p[m..]);
    assert counters + [] == counters;
  }

  /** What one terminated frame contributes. */
  function FrameCounters(parse: Parser, record: Bytes): seq<Counter> {
    if parse(record).Some? then [parse(record).value] else []
  }

  function FrameOutput(parse: Parser, record: Bytes): Bytes {
    if parse(record).Some? then [] else record + [LF]
  }

  lemma {:induction false} ReachedFrame(parse: Parser, whole: Scanned, output: Bytes, counters: seq<Counter>,
                                        p: Bytes, m: nat, n: nat)
    requires Find(p, PREFIX, 0) == m && FindByte(p[m..], LF) == n
    requires Reached(parse, whole, output, counters, p)
    ensures var record := p[m..][..n];
      Reached(parse, whole, output + (p[..m] + FrameOutput(parse, record)),
              counters + FrameCounters(parse, record), p[m..][n + 1..])
  {
    hide Find, FindByteFrom, OccursAt, Cut;
    var q := p[m..];
    var record, s := q[..n], Scan(parse, q[n + 1..]);
    assert q[..n + 1] == record + [LF];
    assert Scan(parse, p) == ScanMarker(parse, p[..m], q);
    assert ScanMarker(parse, p[..m], q).output == p[..m] + (FrameOutput(parse, record) + s.output) by {
      assert [] + s.output == s.output;
    }
    assert ScanMarker(parse, p[..m], q).counters == FrameCounters(parse, record) + s.counters by {
      assert [] + s.counters == s.counters;
    }
    Assoc(p[..m], FrameOutput(parse, record), s.output);
    Assoc(output, p[..m] + FrameOutput(parse, record), s.output);
    Assoc(counters, FrameCounters(parse, record), s.counters);
  }

  lemma MarkerSlices(payload: Bytes, cursor: nat, marker: nat, newline: nat)
    requires cursor <= marker <= newline <= |payload|
    ensures payload[cursor..][marker - cursor..] == payload[marker..]
    ensures payload[cursor..][..marker - cursor] == payload[cursor..marker]
    ensures payload[marker..][..newline - marker] == payload[marker..newline]
    ensures newline < |payload| ==> payload[marker..][newline - marker + 1..] == payload[newline + 1..]
  {
  }

  /** The same at payload indices, as the cursor loop computes them. */
  lemma {:induction false} ReachedRecord(parse: Parser, whole: Scanned, output: Bytes, counters: seq<Counter>,
                                         payload: Bytes, cursor: nat, marker: nat, newline: nat)
    requires cursor <= marker <= newline < |payload|
    requires Find(payload[cursor..], PREFIX, 0) == marker - cursor
    requires FindByte(payload[marker..], LF) == newline - marker
    requires Reached(parse, whole, output, counters, payload[cursor..])
    ensures var record := payload[marker..newline];
      Reached(parse, whole, output + (payload[cursor..marker] + FrameOutput(parse, record)),
              counters + FrameCounters(parse, record), payload[newline + 1..])
  {
    var p, m, n := payload[cursor..], marker - cursor, newline - marker;
    MarkerSlices(payload, cursor, marker, newline);
    assert p[m..] == payload[marker..] && p[..m] == payload[cursor..marker];
    ReachedFrame(parse, whole, output, counters, p, m, n);
  }

  class BorgNetworkStreamFilter {
    const parse: Parser
    var carry: Bytes
    var baselineRoute: Option<Baseline>
    var downloadBytes: nat
    var uploadBytes: nat
    var routeInterface: string
    var routeIp: string
    /** Whether any telemetry was seen, that is, `_latest_interfaces` is not empty. */
    var anyInterface: bool

    function Totals(): Traffic
      reads this
    {
      Traffic(baselineRoute, downloadBytes, uploadBytes, routeInterface, routeIp)
    }

    constructor (parse: Parser)
      ensures this.parse == parse && carry == [] && Totals() == NoTraffic && !anyInterface
    {
      this.parse := parse;
      carry := [];
      baselineRoute, downloadBytes, uploadBytes := None, 0, 0;
      routeInterface, routeIp := "", "";
      anyInterface := false;
    }

    method ParseRecord(record: Bytes) returns (parsed: bool)
      modifies this
      ensures carry == old(carry)
      ensures parsed == parse(record).Some?
      ensures parsed ==> anyInterface && Totals() == Apply(old(Totals()), parse(record).value)
      ensures !parsed ==> anyInterface == old(anyInterface) && Totals() == old(Totals())
    {
      var c := parse(record);
      if c.None? {
        return false;
      }
      var Counter(interface, ip, rx, tx, route) := c.value;
      if route {
        if baselineRoute.None? || baselineRoute.value.interface != interface {
          baselineRoute := Some(Baseline(interface, rx, tx));
          downloadBytes := 0;
          uploadBytes := 0;
        } else {
          var base := baselineRoute.value;
          if rx >= base.rx {
            downloadBytes := rx - base.rx;
          }
          if tx >= base.tx {
            uploadBytes := tx - base.tx;
          }
        }
        routeInterface := interface;
        routeIp := ip;
      }
      anyInterface := true;
      return true;
    }

    method CarryPartialMarker(suffix: Bytes) returns (ordinary: Bytes)
      requires Find(suffix, PREFIX, 0) < 0
      modifies this`carry
      ensures ordinary == suffix[..Cut(suffix)]
      ensures carry == if Cut(suffix) < |suffix| then suffix[Cut(suffix)..] else old(carry)
    {
      var start := RFindByte(suffix, RS);
      if start >= 0 && Prefixes(suffix[start..], PREFIX) {
        ordinary := suffix[..start];
        carry := suffix[start..];
      } else {
        ordinary := suffix;
      }
    }

    method FeedData(data: Bytes) returns (output: Bytes, latest: Option<Traffic>)
      modifies this
      ensures var f := Scan(parse, old(carry) + data);
        output == f.output && carry == f.carry
        && Totals() == ApplyAll(old(Totals()), f.counters)
        && anyInterface == (old(anyInterface) || f.counters != [])
        && latest == if f.counters == [] then None else Some(Totals())
    {
      hide Scan, Reached, Find, FindByteFrom, OccursAt, Cut, Prefixes, RStrip, Break, Rest, Lines, RestCounters, Apply,
           FrameCounters, FrameOutput, RFindByteBefore, RFindByte;
      latest := None;
      var payload := carry + data;
      if carry == [] && FindByte(data, RS) < 0 {
        FastPath(parse, data);
        assert payload == data;
        return data, None;
      }
      carry := [];
      output := [];
      var cursor := 0;
      ghost var counters: seq<Counter> := [];
      ghost var whole := Scan(parse, payload);
      ReachedStart(parse, payload);
      while true
        invariant 0 <= cursor <= |payload| && carry == []
        invariant Reached(parse, whole, output, counters, payload[cursor..])
        invariant Totals() == ApplyAll(old(Totals()), counters)
        invariant anyInterface == (old(anyInterface) || counters != [])
        invariant latest == if counters == [] then None else Some(Totals())
        decreases |payload| - cursor
      {
        var marker := Find(payload, PREFIX, cursor);
        FindFrom(payload, cursor);
        if marker < 0 {
          ReachedEnd(parse, whole, output, counters, payload[cursor..]);
          var ordinary := CarryPartialMarker(payload[cursor..]);
          output := output + ordinary;
          return;
        }
        var length := FindByte(payload[marker..], LF);
        if length < 0 {
          MarkerSlices(payload, cursor, marker, |payload|);
          ReachedOpenFrame(parse, whole, output, counters, payload[cursor..], marker - cursor);
          output := output + payload[cursor..marker];
          carry := payload[marker..];
          return;
        }
        var newline := marker + length;
        ReachedRecord(parse, whole, output, counters, payload, cursor, marker, newline);
        ghost var added := FrameCounters(parse, payload[marker..newline]);
        ApplyAppend(old(Totals()), counters, added);
        var kept := ConsumeRecord(payload[marker..newline]);
        output := output + (payload[cursor..marker] + kept);
        if kept == [] {
          latest := Some(Totals());
        }
        counters := counters + added;
        cursor := newline + 1;
      }
    }

    /** Returns the bytes of the frame that stay in the output. */
    method ConsumeRecord(record: Bytes) returns (kept: Bytes)
      modifies this
      ensures kept == FrameOutput(parse, record) && (kept == [] <==> FrameCounters(parse, record) != [])
      ensures carry == old(carry)
      ensures Totals() == ApplyAll(old(Totals()), FrameCounters(parse, record))
      ensures anyInterface == (old(anyInterface) || FrameCounters(parse, record) != [])
    {
      var parsed := ParseRecord(record);
      if parsed {
        ApplySnoc(old(Totals()), [], parse(record).value);
      }
      kept := if parsed then [] else record + [LF];
    }

    method FinalizeStream() returns (output: Bytes, latest: Option<Traffic>)
      modifies this
      ensures var cs := FinalCounters(parse, old(carry));
        carry == [] && output == (if cs == [] then old(carry) else [])
        && Totals() == ApplyAll(old(Totals()), cs)
        && anyInterface == (old(anyInterface) || cs != [])
        && latest == if anyInterface then Some(Totals()) else None
    {
      if carry == [] {
        return [], if anyInterface then Some(Totals()) else None;
      }
      var final := carry;
      carry := [];
      var parsed := ParseRecord(RStrip(final));
      if parsed {
        ApplySnoc(old(Totals()), [], parse(RStrip(final)).value);
      }
      return if parsed then [] else final, if anyInterface then Some(Totals()) else None;
    }
  }

  lemma ApplySnoc(t: Traffic, cs: seq<Counter>, c: Counter)
    ensures ApplyAll(t, cs + [c]) == Apply(ApplyAll(t, cs), c)
  {
    ApplyAppend(t, cs, [c]);
    assert ApplyAll(ApplyAll(t, cs), [c]) == ApplyAll(Apply(ApplyAll(t, cs), c), [c][1..]);
  }

  lemma OccursStartsWithRs(s: Bytes, j: int)
    requires OccursAt(s, PREFIX, j)
    ensures s[j] == RS
  {
    assert s[j] == s[j..j + |PREFIX|][0] == PREFIX[0];
  }

  /** The zero-copy path of `feed` agrees with the cursor loop. */
  lemma {:induction false} FastPath(parse: Parser, data: Bytes)
    requires FindByte(data, RS) < 0
    ensures Scan(parse, data) == Scanned(data, [], [])
  {
    RFindIs(data, RS, -1);
    forall j ensures !OccursAt(data, PREFIX, j) {
      if OccursAt(data, PREFIX, j) {
        OccursStartsWithRs(data, j);
      }
    }
    assert data[..|data|] == data;
  }

  /** Feeding the class every chunk and finalizing it yields the reference of the whole stream. */
  method FilterStream(decode: Decoder, chunks: seq<Bytes>) returns (output: Bytes, traffic: Traffic)
    ensures var s := Flatten(chunks);
      output == RefOutput(ParserOf(decode), s)
      && traffic == ApplyAll(NoTraffic, RefCounters(ParserOf(decode), s))
  {
    var filter := new BorgNetworkStreamFilter(ParserOf(decode));
    ghost var parse := ParserOf(decode);
    ghost var run := Start;
    output := [];
    for i := 0 to |chunks|
      invariant filter.parse == ParserOf(decode)
      invariant filter.carry == run.carry && filter.Totals() == run.traffic && output == run.output
      invariant FeedAll(parse, Start, chunks) == FeedAll(parse, run, chunks[i..])
    {
      var piece, _ := filter.FeedData(chunks[i]);
      output := output + piece;
      assert chunks[i..][1..] == chunks[i + 1..];
      run := Feed(parse, run, chunks[i]);
    }
    var last, _ := filter.FinalizeStream();
    output := output + last;
    traffic := filter.Totals();
    ParserRejectsShort(decode);
    ChunkInvariance(parse, chunks);
  }
}
