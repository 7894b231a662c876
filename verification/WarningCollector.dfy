/** `BorgWarningCollector`: warning causes found in two interleaved byte streams. */
module WarningCollector {
  import opened ByteLines
  import opened Options
  import opened ItemPrefix
  import opened Newlines

  datatype Kind = Changed | Permission | Missing | Io | Error | Other | Unknown
  datatype Warning = Warning(kind: Kind, path: string, reason: string)

  /** The textual patterns applied to one line. */
  type Classifier = Bytes -> Option<Warning>

  // ---- which lines are skipped ----

  const NonWarningStatuses: Bytes :=
    [65, 77, 85, 82, 100, 98, 99, 104, 115, 102, 105, 112, 120, 63, 43, 46, 45]

  /** What `str.isspace` accepts among the first 256 code points. */
  predicate IsSpace(b: Byte): (r: bool)
    ensures r <==> b in {9, 10, 11, 12, 13, 28, 29, 30, 31, 32, 133, 160}
  {
    Space(b) || 28 <= b <= 31 || b == 133 || b == 160
  }

  function LStrip(s: Bytes): Bytes {
    if s != [] && Space(s[0]) then LStrip(s[1..]) else s
  }

  /** `_can_skip_item_line_bytes`. */
  predicate CanSkip(l: Bytes) {
    var c := LStrip(l);
    var candidate := if StartsWithRemote(c) then LStrip(c[7..]) else c;
    |candidate| >= 2 && candidate[0] in NonWarningStatuses && IsSpace(candidate[1])
  }

  /** The line is a status and a path, perhaps behind "remote:", each behind any spaces. */
  predicate StatusLine(l: Bytes, a: Bytes, remote: Bytes, b: Bytes, item: Bytes) {
    && l == a + remote + b + item && (forall k :: 0 <= k < |a| ==> Space(a[k]))
    && (forall k :: 0 <= k < |b| ==> Space(b[k])) && (RemoteWord(remote) || (remote == [] && b == []))
    && |item| >= 2 && !Space(item[0]) && IsSpace(item[1])
  }

  /** The status letters a warning cannot have; C and E are not among them. */
  predicate Harmless(status: Byte) {
    status as char in "AMURdbchsfipx?+.-"
  }

  lemma {:induction false} LStripPast(a: Bytes, s: Bytes)
    requires (forall k :: 0 <= k < |a| ==> Space(a[k])) && (s == [] || !Space(s[0]))
    ensures LStrip(a + s) == s
  {
    if a == [] {
      assert a + s == s;
    } else {
      assert (a + s)[1..] == a[1..] + s;
      LStripPast(a[1..], s);
    }
  }

  lemma {:induction false} LStripParts(s: Bytes) returns (a: Bytes)
    ensures s == a + LStrip(s) && (forall k :: 0 <= k < |a| ==> Space(a[k]))
    ensures LStrip(s) == [] || !Space(LStrip(s)[0])
  {
    a := [];
    if s != [] && Space(s[0]) {
      a := LStripParts(s[1..]);
      a := [s[0]] + a;
    }
  }

  /** A status line is skipped exactly if its status is harmless. */
  lemma StatusLineSkipped(l: Bytes, a: Bytes, remote: Bytes, b: Bytes, item: Bytes)
    requires StatusLine(l, a, remote, b, item)
    ensures CanSkip(l) <==> Harmless(item[0])
  {
    hide LStrip;
    assert l == a + (remote + b + item);
    LStripPast(a, remote + b + item);
    LStripPast(b, item);
    var c := remote + b + item;
    StartsRemote(c);
    if remote == [] {
      assert c == item;
    } else {
      assert c[..7] == remote && c[7..] == b + item;
    }
    HarmlessStatuses(item[0]);
  }

  lemma HarmlessStatuses(status: Byte)
    ensures status in NonWarningStatuses <==> Harmless(status)
  {
  }

  /** Skipped are exactly the status lines with a harmless status. */
  lemma SkippedExactly(l: Bytes)
    ensures CanSkip(l) <==> exists a, remote, b, item ::
      StatusLine(l, a, remote, b, item) && item != [] && Harmless(item[0])
  {
    hide StatusLine, Harmless;
    if CanSkip(l) {
      var a, remote, b, item := StatusParts(l);
      assert StatusLine(l, a, remote, b, item) && item != [] && Harmless(item[0]);
    }
    forall a, remote, b, item | StatusLine(l, a, remote, b, item) && item != [] && Harmless(item[0])
      ensures CanSkip(l)
    {
      StatusLineSkipped(l, a, remote, b, item);
    }
  }

  lemma StatusParts(l: Bytes) returns (a: Bytes, remote: Bytes, b: Bytes, item: Bytes)
    requires CanSkip(l)
    ensures StatusLine(l, a, remote, b, item) && item != [] && Harmless(item[0])
  {
    hide LStrip;
    var c := LStrip(l);
    a := LStripParts(l);
    StartsRemote(c);
    if StartsWithRemote(c) {
      remote, item := c[..7], LStrip(c[7..]);
      b := LStripParts(c[7..]);
      assert c == remote + c[7..];
    } else {
      remote, b, item := [], [], c;
    }
    HarmlessStatuses(item[0]);
    StatusIsNoSpace(item[0]);
  }

  lemma StatusIsNoSpace(status: Byte)
    requires status in NonWarningStatuses
    ensures !Space(status)
  {
  }

  /** One line of the bulk pattern for blocks of ordinary item lines. */
  predicate ItemLinePattern(l: Bytes) {
    var s := FromStatus(l);
    |s| >= 2 && s[0] in NonWarningStatuses && Blank(s[1]) && CR !in s
  }

  /** The bulk pattern, part by part. */
  lemma BulkPatternExactly(l: Bytes)
    ensures ItemLinePattern(l) <==> exists a, remote, b, item ::
      BehindPrefix(l, a, remote, b, item) && |item| >= 2 && Harmless(item[0]) && Blank(item[1]) && CR !in item
  {
    hide BehindPrefix, FromStatus;
    if ItemLinePattern(l) {
      var a, remote, b := FromStatusParts(l);
      HarmlessStatuses(FromStatus(l)[0]);
    }
    forall a, remote, b, item
      | BehindPrefix(l, a, remote, b, item) && |item| >= 2 && Harmless(item[0]) && Blank(item[1]) && CR !in item
      ensures ItemLinePattern(l)
    {
      HarmlessStatuses(item[0]);
      FromStatusIs(l, a, remote, b, item);
    }
  }

  /** The bulk pattern matches the whole block. */
  predicate OnlyItemLines(complete: Bytes) {
    complete != [] && forall i :: 0 <= i < |Lines(complete)| ==> ItemLinePattern(Lines(complete)[i])
  }

  lemma {:induction false} LStripPastBlanks(s: Bytes)
    requires SkipBlanks(s) != [] && !Space(SkipBlanks(s)[0])
    ensures LStrip(s) == SkipBlanks(s)
  {
    if s != [] && Blank(s[0]) {
      LStripPastBlanks(s[1..]);
    }
  }

  /** Every line the bulk pattern accepts is one the line-by-line path skips. */
  lemma {:induction false} BulkPatternIsSkipped(l: Bytes)
    requires ItemLinePattern(l)
    ensures CanSkip(l)
  {
    var s := SkipBlanks(l);
    if StartsWithRemote(s) {
      assert Lower(s[0]) == 114;
      LStripPastBlanks(l);
      LStripPastBlanks(s[7..]);
    } else {
      LStripPastBlanks(l);
    }
  }

  // ---- the warnings of a stream ----

  function LineWarnings(classify: Classifier, l: Bytes): set<Warning> {
    if CanSkip(l) || classify(l).None? then {} else {classify(l).value}
  }

  function LinesWarnings(classify: Classifier, ls: seq<Bytes>): set<Warning> {
    if ls == [] then {} else LineWarnings(classify, ls[0]) + LinesWarnings(classify, ls[1..])
  }

  /** The unterminated end is classified without the item-line skip. */
  function RestWarnings(classify: Classifier, r: Bytes): set<Warning> {
    if r == [] || classify(r).None? then {} else {classify(r).value}
  }

  /** All warnings of a stream, read as a whole. */
  function Warnings(classify: Classifier, s: Bytes): set<Warning> {
    LinesWarnings(classify, Lines(Normalized(s))) + RestWarnings(classify, Rest(Normalized(s)))
  }

  lemma {:induction false} LinesWarningsExactly(classify: Classifier, ls: seq<Bytes>, w: Warning)
    ensures w in LinesWarnings(classify, ls) <==> exists l :: l in ls && !CanSkip(l) && classify(l) == Some(w)
  {
    hide CanSkip;
    if ls != [] {
      LinesWarningsExactly(classify, ls[1..], w);
      assert forall l :: l in ls <==> l == ls[0] || l in ls[1..];
    }
  }

  /** The warnings are what the classifier finds in the lines that are not skipped, and in the
      unterminated end. */
  lemma WarningsExactly(classify: Classifier, s: Bytes, w: Warning)
    ensures w in Warnings(classify, s) <==>
      || (exists l :: l in Lines(Normalized(s)) && !CanSkip(l) && classify(l) == Some(w))
      || (Rest(Normalized(s)) != [] && classify(Rest(Normalized(s))) == Some(w))
  {
    hide CanSkip, Normalized;
    LinesWarningsExactly(classify, Lines(Normalized(s)), w);
  }

  /** A line with status C or E is never skipped, so no warning about it is lost. */
  lemma ErrorLinesCount(classify: Classifier, s: Bytes, l: Bytes, a: Bytes, remote: Bytes, b: Bytes, item: Bytes)
    requires l in Lines(Normalized(s)) && StatusLine(l, a, remote, b, item) && (item[0] == 67 || item[0] == 69)
    ensures classify(l).Some? ==> classify(l).value in Warnings(classify, s)
  {
    hide StatusLine, Normalized, CanSkip;
    StatusLineSkipped(l, a, remote, b, item);
    if classify(l).Some? {
      WarningsExactly(classify, s, classify(l).value);
    }
  }

  lemma {:induction false} LinesWarningsAppend(classify: Classifier, a: seq<Bytes>, b: seq<Bytes>)
    ensures LinesWarnings(classify, a + b) == LinesWarnings(classify, a) + LinesWarnings(classify, b)
  {
    hide LineWarnings;
    if a == [] {
      assert a + b == b;
    } else {
      assert (a + b)[1..] == a[1..] + b;
      LinesWarningsAppend(classify, a[1..], b);
    }
  }

  /** The bulk path loses nothing. */
  lemma {:induction false} BulkSkipIsSound(classify: Classifier, ls: seq<Bytes>)
    requires forall l :: l in ls ==> ItemLinePattern(l)
    ensures LinesWarnings(classify, ls) == {}
  {
    hide ItemLinePattern, CanSkip;
    if ls != [] {
      BulkPatternIsSkipped(ls[0]);
      BulkSkipIsSound(classify, ls[1..]);
    }
  }

  lemma {:induction false} BlankLineIsNothing(classify: Classifier, x: Bytes)
    requires classify([]).None?
    ensures LinesWarnings(classify, Lines([LF] + x)) == LinesWarnings(classify, Lines(x))
    ensures Rest([LF] + x) == Rest(x)
  {
    hide FindByteFrom, CanSkip;
    FindByteIs([LF] + x, LF, 0);
    assert ([LF] + x)[..0] == [] && ([LF] + x)[1..] == x;
    assert Lines([LF] + x) == [[]] + Lines(x);
    assert ([[]] + Lines(x))[1..] == Lines(x);
  }

  /** Feeding `b` after `a`, wherever the cut is. */
  lemma {:induction false} FeedExtends(classify: Classifier, a: Bytes, b: Bytes)
    requires classify([]).None?
    ensures var p := Rest(Normalized(a)) + Normalized(b);
      Rest(Normalized(a + b)) == Rest(p)
      && LinesWarnings(classify, Lines(Normalized(a + b)))
        == LinesWarnings(classify, Lines(Normalized(a))) + LinesWarnings(classify, Lines(p))
  {
    hide LinesWarnings, Lines, Rest, Normalized, CrLfToLf;
    var u := Normalized(a);
    if CutsCrLf(a, b) {
      var v := Normalized(b[1..]);
      CrLfCut(a, b);
      RestAfterLf(u);
      LinesAppend(u, v);
      LinesWarningsAppend(classify, Lines(u), Lines(Rest(u) + v));
      BlankLineIsNothing(classify, v);
      assert [] + v == v && [] + ([LF] + v) == [LF] + v;
    } else {
      NormalizedAppend(a, b);
      LinesAppend(u, Normalized(b));
      LinesWarningsAppend(classify, Lines(u), Lines(Rest(u) + Normalized(b)));
    }
  }

  // ---- an unterminated last line ----

  /** What terminating the last line makes of a stream's warnings: the item-line skip now
      applies to it too. */
  lemma {:induction false} TerminatedWarnings(classify: Classifier, s: Bytes)
    requires classify([]).None?
    ensures Warnings(classify, s + [LF])
      == LinesWarnings(classify, Lines(Normalized(s))) + LineWarnings(classify, Rest(Normalized(s)))
  {
    hide LinesWarnings, LineWarnings, Lines, Rest, CrLfToLf, Normalized;
    var r := Rest(Normalized(s));
    FeedExtends(classify, s, [LF]);
    LfIsNormal();
    LastLine(classify, r);
  }

  lemma LfIsNormal()
    ensures Normalized([LF]) == [LF]
  {
    assert CrLfToLf([LF]) == [LF] + CrLfToLf([LF][1..]);
    assert CrToLf([LF]) == [LF] + CrToLf([LF][1..]);
  }

  lemma LastLine(classify: Classifier, r: Bytes)
    requires LF !in r
    ensures LinesWarnings(classify, Lines(r + [LF])) == LineWarnings(classify, r) && Rest(r + [LF]) == []
  {
    hide FindByteFrom, CanSkip;
    FindByteIs(r + [LF], LF, |r|);
    assert (r + [LF])[..|r|] == r && (r + [LF])[|r| + 1..] == [];
    assert Lines(r + [LF]) == [r] + Lines([]);
    assert ([r] + Lines([]))[1..] == Lines([]);
    assert Lines([]) == [] && Rest([]) == [];
  }

  /** A last line feed changes the warnings exactly when the unterminated rest is an item line
      that the skip would drop, yet classified, with a warning no other line gives. */
  lemma {:induction false} UnterminatedExactly(classify: Classifier, s: Bytes)
    requires classify([]).None?
    ensures var r := Rest(Normalized(s));
      Warnings(classify, s + [LF]) == Warnings(classify, s) <==>
        || r == [] || !CanSkip(r) || classify(r).None?
        || classify(r).value in LinesWarnings(classify, Lines(Normalized(s)))
  {
    hide CanSkip, LinesWarnings, Lines, Rest, Normalized;
    TerminatedWarnings(classify, s);
    var r, before := Rest(Normalized(s)), LinesWarnings(classify, Lines(Normalized(s)));
    if r != [] && CanSkip(r) && classify(r).Some? {
      assert classify(r).value in Warnings(classify, s);
      assert Warnings(classify, s + [LF]) == before;
    }
  }

  /** ": file changed while we backed it up" */
  const CHANGED_SUFFIX: Bytes :=
    [58, 32, 102, 105, 108, 101, 32, 99, 104, 97, 110, 103, 101, 100, 32, 119, 104, 105, 108, 101, 32,
     119, 101, 32, 98, 97, 99, 107, 101, 100, 32, 105, 116, 32, 117, 112]

  const CHANGED_REASON := "file changed while we backed it up"

  /** A path of letters, digits, points, slashes and inner spaces that is no C or E item line,
      so that no pattern but the one for changed files applies to the line it starts. */
  predicate PlainPath(path: Bytes) {
    && path != [] && path[0] != SPACE && path[|path| - 1] != SPACE
    && !(|path| >= 2 && (path[0] == 67 || path[0] == 69) && path[1] == SPACE)
    && forall i :: 0 <= i < |path| ==>
      || 65 <= path[i] <= 90 || 97 <= path[i] <= 122 || 46 <= path[i] <= 57 || path[i] == SPACE
  }

  function Ascii(s: Bytes): string {
    seq(|s|, i requires 0 <= i < |s| => s[i] as char)
  }

  /** The classifier follows the pattern for changed files on such lines. */
  ghost predicate KnowsChanged(classify: Classifier) {
    forall path :: PlainPath(path) ==>
      classify(path + CHANGED_SUFFIX) == Some(Warning(Changed, Ascii(path), CHANGED_REASON))
  }

  /** "A x: file changed while we backed it up" without a line end is a warning about a file
      "A x"; with its line end it is an item line and no warning. */
  lemma UnterminatedWitness(classify: Classifier)
    requires classify([]).None? && KnowsChanged(classify)
    ensures var line := [65, SPACE, 120] + CHANGED_SUFFIX;
      && Warnings(classify, line) == {Warning(Changed, "A x", CHANGED_REASON)}
      && Warnings(classify, line + [LF]) == {}
  {
    hide *;
    var line := ItemLikeLine();
    SuffixPlain();
    OneLine(line);
    TerminatedWarnings(classify, line);
    LineAlone(classify, line);
  }

  function ItemLikeLine(): Bytes {
    [65, SPACE, 120] + CHANGED_SUFFIX
  }

  lemma SuffixPlain()
    ensures CR !in ItemLikeLine() && LF !in ItemLikeLine() && ItemLikeLine() == [65, SPACE, 120] + CHANGED_SUFFIX
  {
    assert CR !in CHANGED_SUFFIX && LF !in CHANGED_SUFFIX;
    forall k | 0 <= k < |ItemLikeLine()| ensures ItemLikeLine()[k] != CR && ItemLikeLine()[k] != LF {
      assert k >= 3 ==> ItemLikeLine()[k] == CHANGED_SUFFIX[k - 3];
    }
  }

  lemma OneLine(line: Bytes)
    requires CR !in line && LF !in line
    ensures Normalized(line) == line && Lines(line) == [] && Rest(line) == line
  {
    hide FindByteFrom;
    CrFree(line);
  }

  lemma LineAlone(classify: Classifier, line: Bytes)
    requires KnowsChanged(classify) && line == ItemLikeLine() && CR !in line && LF !in line
    requires Normalized(line) == line && Lines(line) == [] && Rest(line) == line
    ensures LinesWarnings(classify, []) == {} && LineWarnings(classify, line) == {}
    ensures Warnings(classify, line) == {Warning(Changed, "A x", CHANGED_REASON)}
  {
    hide Lines, Rest, Normalized;
    var path: Bytes := [65, SPACE, 120];
    assert PlainPath(path) && Ascii(path) == "A x";
    assert LStrip(line) == line && line[0] == 65 && line[1] == SPACE;
    assert CanSkip(line);
  }

  // ---- interleaved runs ----

  datatype Stream = Stdout | Stderr
  datatype Chunk = Chunk(stream: Stream, data: Bytes)

  /** The bytes of one stream, in order of arrival. */
  function BytesOf(stream: Stream, chunks: seq<Chunk>): Bytes {
    if chunks == [] then []
    else (if chunks[0].stream == stream then chunks[0].data else []) + BytesOf(stream, chunks[1..])
  }

  datatype State = State(stdout: Bytes, stderr: Bytes, seen: set<Warning>)
  {
    function Buffer(stream: Stream): Bytes {
      if stream == Stdout then stdout else stderr
    }
  }

  function Feed(classify: Classifier, st: State, chunk: Chunk): State {
    var p := st.Buffer(chunk.stream) + Normalized(chunk.data);
    var seen := st.seen + LinesWarnings(classify, Lines(p));
    if chunk.stream == Stdout then State(Rest(p), st.stderr, seen) else State(st.stdout, Rest(p), seen)
  }

  function FeedAll(classify: Classifier, st: State, chunks: seq<Chunk>): State
    decreases |chunks|
  {
    if chunks == [] then st else FeedAll(classify, Feed(classify, st, chunks[0]), chunks[1..])
  }

  function Finalize(classify: Classifier, st: State): State {
    State([], [], st.seen + RestWarnings(classify, st.stdout) + RestWarnings(classify, st.stderr))
  }

  function StateFor(classify: Classifier, out: Bytes, err: Bytes): State {
    State(Rest(Normalized(out)), Rest(Normalized(err)),
          LinesWarnings(classify, Lines(Normalized(out))) + LinesWarnings(classify, Lines(Normalized(err))))
  }

  lemma {:induction false} FeedAllState(classify: Classifier, out: Bytes, err: Bytes, chunks: seq<Chunk>)
    requires classify([]).None?
    ensures FeedAll(classify, StateFor(classify, out, err), chunks)
      == StateFor(classify, out + BytesOf(Stdout, chunks), err + BytesOf(Stderr, chunks))
    decreases |chunks|
  {
    hide LinesWarnings, Lines, Rest, Normalized;
    if chunks == [] {
      assert out + [] == out && err + [] == err;
    } else {
      var Chunk(stream, data) := chunks[0];
      var out' := if stream == Stdout then out + data else out;
      var err' := if stream == Stderr then err + data else err;
      if stream == Stdout {
        FeedExtends(classify, out, data);
      } else {
        FeedExtends(classify, err, data);
      }
      assert Feed(classify, StateFor(classify, out, err), chunks[0]) == StateFor(classify, out', err');
      FeedAllState(classify, out', err', chunks[1..]);
      SplitBytes(out, stream == Stdout, data, BytesOf(Stdout, chunks[1..]));
      SplitBytes(err, stream == Stderr, data, BytesOf(Stderr, chunks[1..]));
    }
  }

  lemma SplitBytes(s: Bytes, mine: bool, data: Bytes, rest: Bytes)
    ensures (if mine then s + data else s) + rest == s + ((if mine then data else []) + rest)
  {
  }

  /** The warnings found are those of the two streams read as wholes:
      neither chunking (even of a CRLF pair) nor interleaving matters. */
  lemma {:induction false} InterleavingInvariance(classify: Classifier, chunks: seq<Chunk>)
    requires classify([]).None?
    ensures Finalize(classify, FeedAll(classify, State([], [], {}), chunks)).seen
      == Warnings(classify, BytesOf(Stdout, chunks)) + Warnings(classify, BytesOf(Stderr, chunks))
  {
    hide LinesWarnings;
    assert Normalized([]) == [] && Lines([]) == [] && Rest([]) == [];
    assert LinesWarnings(classify, []) == {} by {
      NoLinesNoWarnings(classify);
    }
    assert StateFor(classify, [], []) == State([], [], {});
    FeedAllState(classify, [], [], chunks);
    assert [] + BytesOf(Stdout, chunks) == BytesOf(Stdout, chunks);
    assert [] + BytesOf(Stderr, chunks) == BytesOf(Stderr, chunks);
  }

  lemma NoLinesNoWarnings(classify: Classifier)
    ensures LinesWarnings(classify, []) == {}
  {
  }

  // ---- the collector ----

  function OfKind(ws: set<Warning>, kind: Kind): set<Warning> {
    set w | w in ws && w.kind == kind
  }

  /** The counters are the sizes of the set of distinct warnings. */
  ghost predicate Counted(seen: set<Warning>, counts: map<Kind, nat>, total: nat) {
    total == |seen| && forall kind :: kind in counts && counts[kind] == |OfKind(seen, kind)|
  }

  /** The listed items are the first distinct warnings, up to the limit. */
  ghost predicate Listed(seen: set<Warning>, items: seq<Warning>, maxItems: nat) {
    && |items| == (if |seen| < maxItems then |seen| else maxItems)
    && (forall i :: 0 <= i < |items| ==> items[i] in seen)
    && (forall i, j :: 0 <= i < j < |items| ==> items[i] != items[j])
  }

  lemma CountOne(seen: set<Warning>, counts: map<Kind, nat>, total: nat, item: Warning)
    requires Counted(seen, counts, total) && item !in seen
    ensures Counted(seen + {item}, counts[item.kind := counts[item.kind] + 1], total + 1)
  {
    forall kind ensures OfKind(seen + {item}, kind)
        == if item.kind == kind then OfKind(seen, kind) + {item} else OfKind(seen, kind) {
    }
  }

  lemma ListOne(seen: set<Warning>, items: seq<Warning>, maxItems: nat, item: Warning)
    requires Listed(seen, items, maxItems) && item !in seen
    ensures Listed(seen + {item}, if |items| < maxItems then items + [item] else items, maxItems)
  {
  }

  lemma CountNone()
    ensures Counted({}, NoCounts, 0)
  {
    forall kind ensures kind in NoCounts && NoCounts[kind] == 0 && OfKind({}, kind) == {} {
      match kind
      case Changed =>
      case Permission =>
      case Missing =>
      case Io =>
      case Error =>
      case Other =>
      case Unknown =>
    }
  }

  const NoCounts: map<Kind, nat> :=
    map[Changed := 0, Permission := 0, Missing := 0, Io := 0, Error := 0, Other := 0, Unknown := 0]

  lemma FirstLine(classify: Classifier, s: Bytes, n: nat)
    requires n < |s| && n == FindByte(s, LF)
    ensures LinesWarnings(classify, Lines(s))
      == LineWarnings(classify, s[..n]) + LinesWarnings(classify, Lines(s[n + 1..]))
  {
    hide LineWarnings, FindByteFrom;
    assert Lines(s) == [s[..n]] + Lines(s[n + 1..]);
    assert Lines(s)[1..] == Lines(s[n + 1..]);
  }

  lemma NoLine(classify: Classifier, s: Bytes)
    requires FindByte(s, LF) < 0
    ensures LinesWarnings(classify, Lines(s)) == {}
  {
  }

  datatype Summary = Summary(total: nat, items: seq<Warning>, truncated: nat, counts: map<Kind, nat>)

  class BorgWarningCollector {
    const classify: Classifier
    const maxItems: nat
    var stdoutBuffer: Bytes
    var stderrBuffer: Bytes
    var items: seq<Warning>
    var seen: set<Warning>
    var counts: map<Kind, nat>
    var totalCount: nat

    ghost predicate Valid()
      reads this
    {
      classify([]).None? && Counted(seen, counts, totalCount) && Listed(seen, items, maxItems)
    }

    function Current(): State
      reads this
    {
      State(stdoutBuffer, stderrBuffer, seen)
    }

    constructor (classify: Classifier, maxItems: int)
      requires classify([]).None?
      ensures Valid() && this.classify == classify && Current() == State([], [], {})
      ensures this.maxItems == if maxItems < 1 then 1 else maxItems
    {
      this.classify := classify;
      this.maxItems := if maxItems < 1 then 1 else maxItems;
      stdoutBuffer, stderrBuffer, items, seen, totalCount := [], [], [], {}, 0;
      counts := NoCounts;
      CountNone();
    }

    method Record(item: Warning) returns (changed: bool)
      requires Valid()
      modifies this
      ensures Valid() && stdoutBuffer == old(stdoutBuffer) && stderrBuffer == old(stderrBuffer)
      ensures seen == old(seen) + {item} && changed == (item !in old(seen))
      ensures items == if changed && |old(items)| < maxItems then old(items) + [item] else old(items)
    {
      if item in seen {
        assert seen + {item} == seen;
        return false;
      }
      CountOne(seen, counts, totalCount, item);
      ListOne(seen, items, maxItems, item);
      assert item.kind in counts;
      seen := seen + {item};
      totalCount := totalCount + 1;
      counts := counts[item.kind := counts[item.kind] + 1];
      if |items| < maxItems {
        items := items + [item];
      }
      return true;
    }

    method ConsumeLines(complete: Bytes) returns (changed: bool)
      requires Valid()
      modifies this
      ensures Valid() && stdoutBuffer == old(stdoutBuffer) && stderrBuffer == old(stderrBuffer)
      ensures seen == old(seen) + LinesWarnings(classify, Lines(complete))
      ensures changed == (seen != old(seen))
    {
      hide *;
      changed := false;
      var start := 0;
      assert complete[0..] == complete;
      while true
        invariant 0 <= start <= |complete|
        invariant Valid() && stdoutBuffer == old(stdoutBuffer) && stderrBuffer == old(stderrBuffer)
        invariant old(seen) <= seen && changed == (seen != old(seen))
        invariant old(seen) + LinesWarnings(classify, Lines(complete))
          == seen + LinesWarnings(classify, Lines(complete[start..]))
        decreases |complete| - start
      {
        var rest := complete[start..];
        var n := FindByte(rest, LF);
        if n < 0 {
          NoLine(classify, rest);
          return;
        }
        var line := rest[..n];
        FirstLine(classify, rest, n);
        assert complete[start + n + 1..] == rest[n + 1..];
        start := start + n + 1;
        var isNew := ConsumeLine(line);
        changed := isNew || changed;
      }
    }

    method ConsumeLine(line: Bytes) returns (changed: bool)
      requires Valid()
      modifies this
      ensures Valid() && stdoutBuffer == old(stdoutBuffer) && stderrBuffer == old(stderrBuffer)
      ensures seen == old(seen) + LineWarnings(classify, line)
      ensures changed == (seen != old(seen))
    {
      hide CanSkip, Counted, Listed;
      changed := false;
      if !CanSkip(line) {
        var item := classify(line);
        if item.Some? {
          changed := Record(item.value);
        }
      }
    }

    method FeedBytes(data: Bytes, stream: Stream) returns (changed: bool)
      requires Valid()
      modifies this
      ensures Valid() && Current() == Feed(classify, old(Current()), Chunk(stream, data))
      ensures changed == (seen != old(seen))
    {
      hide LinesWarnings, Lines, Rest, FindByteFrom, RFindByteBefore, RFindByte, OnlyItemLines, Counted, Listed;
      var combined := Current().Buffer(stream) + CrToLf(CrLfToLf(data));
      var newline := RFindByte(combined, LF);
      SplitAtLastLf(combined);
      NoLinesNoWarnings(classify);
      if newline < 0 {
        assert combined[0..] == combined;
        SetBuffer(stream, combined);
        return false;
      }
      var complete := combined[..newline + 1];
      SetBuffer(stream, combined[newline + 1..]);
      if OnlyItemLines(complete) {
        UnfoldBlock(complete);
        BulkSkipIsSound(classify, Lines(complete));
        return false;
      }
      changed := ConsumeLines(complete);
    }

    method SetBuffer(stream: Stream, buffer: Bytes)
      modifies this`stdoutBuffer, this`stderrBuffer
      ensures stdoutBuffer == if stream == Stdout then buffer else old(stdoutBuffer)
      ensures stderrBuffer == if stream == Stderr then buffer else old(stderrBuffer)
    {
      if stream == Stdout {
        stdoutBuffer := buffer;
      } else {
        stderrBuffer := buffer;
      }
    }

    method FinalizeStreams() returns (changed: bool)
      requires Valid()
      modifies this
      ensures Valid() && Current() == Finalize(classify, old(Current()))
      ensures changed == (seen != old(seen))
    {
      changed := ConsumeRemainder(stdoutBuffer);
      var more := ConsumeRemainder(stderrBuffer);
      changed := more || changed;
      stdoutBuffer, stderrBuffer := [], [];
    }

    method ConsumeRemainder(remainder: Bytes) returns (changed: bool)
      requires Valid()
      modifies this
      ensures Valid() && stdoutBuffer == old(stdoutBuffer) && stderrBuffer == old(stderrBuffer)
      ensures seen == old(seen) + RestWarnings(classify, remainder)
      ensures changed == (seen != old(seen))
    {
      changed := false;
      if remainder != [] {
        var item := classify(remainder);
        if item.Some? {
          changed := Record(item.value);
        }
      }
    }

    method Summarize() returns (summary: Option<Summary>)
      requires Valid()
      ensures summary.None? <==> seen == {}
      ensures summary.Some? ==>
        var s := summary.value;
        && s.total == |seen| == s.truncated + |s.items|
        && (forall i :: 0 <= i < |s.items| ==> s.items[i] in seen)
        && forall kind :: kind in s.counts && s.counts[kind] == |OfKind(seen, kind)|
    {
      if totalCount == 0 {
        return None;
      }
      return Some(Summary(totalCount, items, totalCount - |items|, counts));
    }
  }

  lemma UnfoldBlock(complete: Bytes)
    requires OnlyItemLines(complete)
    ensures forall l :: l in Lines(complete) ==> ItemLinePattern(l)
  {
  }

  /** Two arrivals of the same stdout and stderr bytes give the same totals. */
  method CollectAll(classify: Classifier, maxItems: int, chunks: seq<Chunk>)
      returns (total: nat, counts: map<Kind, nat>)
    requires classify([]).None?
    ensures var ws := Warnings(classify, BytesOf(Stdout, chunks)) + Warnings(classify, BytesOf(Stderr, chunks));
      total == |ws| && forall kind :: kind in counts && counts[kind] == |OfKind(ws, kind)|
  {
    hide Warnings, Feed, Finalize;
    var c := new BorgWarningCollector(classify, maxItems);
    for i := 0 to |chunks|
      invariant c.Valid() && c.classify == classify
      invariant FeedAll(classify, State([], [], {}), chunks) == FeedAll(classify, c.Current(), chunks[i..])
    {
      assert chunks[i..][1..] == chunks[i + 1..];
      var _ := c.FeedBytes(chunks[i].data, chunks[i].stream);
    }
    var _ := c.FinalizeStreams();
    InterleavingInvariance(classify, chunks);
    total, counts := c.totalCount, c.counts;
  }
}
