/** `BorgItemActivityStreamFilter`: counting A/M/C/E item lines and, on request,
    removing the A/M lines from the stream. */
module ItemActivity {
  import opened ByteLines
  import opened Options
  import opened ItemPrefix

  datatype Status = Added | Modified | Changed | Errored

  function StatusOf(b: Byte): Option<Status> {
    if b == 65 then Some(Added)
    else if b == 77 then Some(Modified)
    else if b == 67 then Some(Changed)
    else if b == 69 then Some(Errored)
    else None
  }

  // ---- the two line patterns of the source ----

  function DropOneCr(s: Bytes): Bytes {
    if s != [] && s[|s| - 1] == CR then s[..|s| - 1] else s
  }

  datatype Item = Item(status: Status, text: Bytes)

  /** Status letter, blanks, at least one further character, at most one CR and that at the end. */
  function ItemOf(l: Bytes): Option<Item> {
    var s := FromStatus(l);
    if s == [] || StatusOf(s[0]).None? then None
    else
      var body := DropOneCr(s[1..]);
      if |body| >= 2 && Blank(body[0]) && CR !in body then Some(Item(StatusOf(s[0]).value, body)) else None
  }

  predicate AddedOrModifiedText(l: Bytes, body: Bytes) {
    var s := FromStatus(l);
    s != [] && StatusOf(s[0]) in {Some(Added), Some(Modified)}
    && body != [] && Blank(body[0]) && CR !in body
  }

  /** A terminated A/M line; blanks after the letter are enough, and one CR may precede the LF. */
  predicate RemovedLine(l: Bytes) {
    FromStatus(l) != [] && AddedOrModifiedText(l, DropOneCr(FromStatus(l)[1..]))
  }

  /** An unterminated A/M line has no CR at all. */
  predicate RemovedRest(r: Bytes) {
    FromStatus(r) != [] && AddedOrModifiedText(r, FromStatus(r)[1..])
  }

  // ---- item lines as they are written ----

  function Letter(status: Status): Byte {
    match status
    case Added => 'A' as int
    case Modified => 'M' as int
    case Changed => 'C' as int
    case Errored => 'E' as int
  }

  /** At most one CR. */
  predicate LineEnd(cr: Bytes) {
    cr == [] || cr == [13]
  }

  /** Behind a prefix, a status letter and a text that starts with a blank and holds no CR. */
  predicate StatusLine(l: Bytes, a: Bytes, remote: Bytes, b: Bytes, status: Status, text: Bytes, cr: Bytes) {
    && BehindPrefix(l, a, remote, b, [Letter(status)] + text + cr)
    && text != [] && Blank(text[0]) && CR !in text && LineEnd(cr)
  }

  lemma StatusFound(l: Bytes, a: Bytes, remote: Bytes, b: Bytes, status: Status, text: Bytes, cr: Bytes)
    requires StatusLine(l, a, remote, b, status, text, cr)
    ensures var s := FromStatus(l);
      s == [Letter(status)] + text + cr && StatusOf(s[0]) == Some(status) && DropOneCr(s[1..]) == text
  {
    hide Blanks, RemoteWord, FromStatus;
    var item := [Letter(status)] + text + cr;
    assert item[1] == text[0];
    FromStatusIs(l, a, remote, b, item);
    assert item[1..] == text + cr;
    assert cr == [] ==> text + cr == text;
    assert cr == [13] ==> (text + cr)[..|text|] == text;
  }

  lemma StatusParts(l: Bytes, status: Status) returns (a: Bytes, remote: Bytes, b: Bytes, cr: Bytes)
    requires var s := FromStatus(l); s != [] && StatusOf(s[0]) == Some(status)
    ensures LineEnd(cr) && FromStatus(l) == [Letter(status)] + DropOneCr(FromStatus(l)[1..]) + cr
    ensures BehindPrefix(l, a, remote, b, FromStatus(l))
  {
    hide BehindPrefix, FromStatus;
    a, remote, b := FromStatusParts(l);
    var rest := FromStatus(l)[1..];
    cr := if rest != [] && rest[|rest| - 1] == CR then [13] else [];
    assert rest == DropOneCr(rest) + cr;
  }

  /** Item lines are exactly the status lines with something behind the first blank. */
  lemma ItemExactly(l: Bytes, status: Status, text: Bytes)
    ensures ItemOf(l) == Some(Item(status, text)) <==>
      |text| >= 2 && exists a, remote, b, cr :: StatusLine(l, a, remote, b, status, text, cr)
  {
    hide BehindPrefix, FromStatus;
    if ItemOf(l) == Some(Item(status, text)) {
      var a, remote, b, cr := StatusParts(l, status);
      assert StatusLine(l, a, remote, b, status, text, cr);
    }
    forall a, remote, b, cr | |text| >= 2 && StatusLine(l, a, remote, b, status, text, cr)
      ensures ItemOf(l) == Some(Item(status, text))
    {
      StatusFound(l, a, remote, b, status, text, cr);
    }
  }

  /** A terminated line is removed exactly if it is a status line with A or M. */
  lemma RemovedExactly(l: Bytes)
    ensures RemovedLine(l) <==> exists a, remote, b, status, text, cr ::
      StatusLine(l, a, remote, b, status, text, cr) && (status == Added || status == Modified)
  {
    hide BehindPrefix, FromStatus;
    if RemovedLine(l) {
      var status, text := StatusOf(FromStatus(l)[0]).value, DropOneCr(FromStatus(l)[1..]);
      var a, remote, b, cr := StatusParts(l, status);
      assert StatusLine(l, a, remote, b, status, text, cr);
    }
    forall a, remote, b, status, text, cr
      | StatusLine(l, a, remote, b, status, text, cr) && (status == Added || status == Modified)
      ensures RemovedLine(l)
    {
      StatusFound(l, a, remote, b, status, text, cr);
    }
  }

  /** The unterminated end is removed only if it has no CR either. */
  lemma RemovedRestExactly(l: Bytes)
    ensures RemovedRest(l) <==> exists a, remote, b, status, text ::
      StatusLine(l, a, remote, b, status, text, []) && (status == Added || status == Modified)
  {
    hide BehindPrefix, FromStatus;
    if RemovedRest(l) {
      var status, text := StatusOf(FromStatus(l)[0]).value, FromStatus(l)[1..];
      var a, remote, b, cr := StatusParts(l, status);
      assert CR !in text && DropOneCr(text) == text && cr == [];
      assert StatusLine(l, a, remote, b, status, text, []);
    }
    forall a, remote, b, status, text
      | StatusLine(l, a, remote, b, status, text, []) && (status == Added || status == Modified)
      ensures RemovedRest(l)
    {
      StatusFound(l, a, remote, b, status, text, []);
      assert [Letter(status)] + text + [] == [Letter(status)] + text;
    }
  }

  // ---- counters ----

  datatype Tally = Tally(added: nat, modified: nat, changed: nat, errored: nat,
                         lastStatus: Option<Status>, lastText: Bytes)
  {
    function Count(status: Status): nat {
      match status
      case Added => added
      case Modified => modified
      case Changed => changed
      case Errored => errored
    }
  }

  const NoItems := Tally(0, 0, 0, 0, None, [])

  function TallyLine(t: Tally, l: Bytes): Tally {
    match ItemOf(l)
    case None => t
    case Some(Item(Added, p)) => t.(added := t.added + 1, lastStatus := Some(Added), lastText := p)
    case Some(Item(Modified, p)) => t.(modified := t.modified + 1, lastStatus := Some(Modified), lastText := p)
    case Some(Item(Changed, p)) => t.(changed := t.changed + 1, lastStatus := Some(Changed), lastText := p)
    case Some(Item(Errored, p)) => t.(errored := t.errored + 1, lastStatus := Some(Errored), lastText := p)
  }

  function TallyLines(t: Tally, ls: seq<Bytes>): Tally
    decreases |ls|
  {
    if ls == [] then t else TallyLines(TallyLine(t, ls[0]), ls[1..])
  }

  lemma {:induction false} TallyAppend(t: Tally, a: seq<Bytes>, b: seq<Bytes>)
    ensures TallyLines(t, a + b) == TallyLines(TallyLines(t, a), b)
    decreases |a|
  {
    hide TallyLine;
    if a == [] {
      assert a + b == b;
    } else {
      assert (a + b)[1..] == a[1..] + b;
      TallyAppend(TallyLine(t, a[0]), a[1..], b);
    }
  }

  /** The newest item line is line i, or there is none. */
  predicate NewestItem(ls: seq<Bytes>, t: Tally, i: nat) {
    && i < |ls| && ItemOf(ls[i]).Some? && (forall k :: i < k < |ls| ==> ItemOf(ls[k]).None?)
    && t.lastStatus == Some(ItemOf(ls[i]).value.status) && t.lastText == ItemOf(ls[i]).value.text
  }

  predicate ShowsNewest(ls: seq<Bytes>, t: Tally) {
    if forall k :: 0 <= k < |ls| ==> ItemOf(ls[k]).None? then t.lastStatus == None && t.lastText == []
    else exists i: nat :: i < |ls| && NewestItem(ls, t, i)
  }

  lemma {:induction false} TallyShowsNewest(ls: seq<Bytes>)
    ensures ShowsNewest(ls, TallyLines(NoItems, ls))
    decreases |ls|
  {
    hide *;
    if ls == [] {
      NothingShown();
    } else {
      var front, l := ls[..|ls| - 1], ls[|ls| - 1];
      TallyShowsNewest(front);
      TallyAppend(NoItems, front, [l]);
      assert ls == front + [l];
      OneMoreLine(TallyLines(NoItems, front), l);
      NextNewest(front, l, TallyLines(NoItems, front));
    }
  }

  lemma NothingShown()
    ensures ShowsNewest([], TallyLines(NoItems, []))
  {
  }

  lemma OneMoreLine(t: Tally, l: Bytes)
    ensures TallyLines(t, [l]) == TallyLine(t, l)
  {
    assert TallyLines(t, [l]) == TallyLines(TallyLine(t, l), [l][1..]);
  }

  lemma NextNewest(front: seq<Bytes>, l: Bytes, t: Tally)
    requires ShowsNewest(front, t)
    ensures ShowsNewest(front + [l], TallyLine(t, l))
  {
    hide ItemOf;
    var ls := front + [l];
    assert forall k :: 0 <= k < |front| ==> ls[k] == front[k];
    assert ls[|front|] == l;
    if ItemOf(l).Some? {
      assert NewestItem(ls, TallyLine(t, l), |front|);
    } else {
      forall i: nat | i < |front| && NewestItem(front, t, i) ensures NewestItem(ls, t, i) {
      }
    }
  }

  // ---- the reference: the whole stream ----

  function AllLines(s: Bytes): seq<Bytes> {
    Lines(s) + [Rest(s)]
  }

  function LinesWith(status: Status, ls: seq<Bytes>): nat {
    if ls == [] then 0
    else (if ItemOf(ls[0]).Some? && ItemOf(ls[0]).value.status == status then 1 else 0) + LinesWith(status, ls[1..])
  }

  function KeptLine(l: Bytes): Bytes {
    if RemovedLine(l) then [] else l + [LF]
  }

  function KeptRest(r: Bytes): Bytes {
    if RemovedRest(r) then [] else r
  }

  function KeptLines(ls: seq<Bytes>): Bytes {
    FlatMap(KeptLine, ls)
  }

  /** The stream without its A/M lines. */
  function Stripped(s: Bytes): Bytes {
    KeptLines(Lines(s)) + KeptRest(Rest(s))
  }

  // ---- a whole run ----

  datatype Run = Run(carry: Bytes, tally: Tally, output: Bytes)

  const Start := Run([], NoItems, [])

  function Feed(strip: bool, run: Run, data: Bytes): Run {
    var p := run.carry + data;
    Run(Rest(p), TallyLines(run.tally, Lines(p)),
        run.output + if strip then KeptLines(Lines(p)) else data)
  }

  function FeedAll(strip: bool, run: Run, chunks: seq<Bytes>): Run
    decreases |chunks|
  {
    if chunks == [] then run else FeedAll(strip, Feed(strip, run, chunks[0]), chunks[1..])
  }

  function Finalize(strip: bool, run: Run): Run {
    Run([], TallyLine(run.tally, run.carry), run.output + if strip then KeptRest(run.carry) else [])
  }

  function StateFor(strip: bool, s: Bytes): Run {
    Run(Rest(s), TallyLines(NoItems, Lines(s)), if strip then KeptLines(Lines(s)) else s)
  }

  lemma {:induction false} FeedExtends(strip: bool, s: Bytes, x: Bytes)
    ensures Feed(strip, StateFor(strip, s), x) == StateFor(strip, s + x)
  {
    hide TallyLine, KeptLine, FindByte, Lines, Rest, TallyLines;
    LinesAppend(s, x);
    TallyAppend(NoItems, Lines(s), Lines(Rest(s) + x));
    FlatMapAppend(KeptLine, Lines(s), Lines(Rest(s) + x));
  }

  lemma {:induction false} FeedAllState(strip: bool, s: Bytes, chunks: seq<Bytes>)
    ensures FeedAll(strip, StateFor(strip, s), chunks) == StateFor(strip, s + Flatten(chunks))
    decreases |chunks|
  {
    hide StateFor, Feed;
    if chunks == [] {
      assert s + [] == s;
    } else {
      FeedExtends(strip, s, chunks[0]);
      FeedAllState(strip, s + chunks[0], chunks[1..]);
      Assoc(s, chunks[0], Flatten(chunks[1..]));
    }
  }

  lemma {:induction false} TallyCounts(t: Tally, ls: seq<Bytes>, status: Status)
    ensures TallyLines(t, ls).Count(status) == t.Count(status) + LinesWith(status, ls)
    decreases |ls|
  {
    hide FromStatus, ItemOf;
    if ls != [] {
      TallyCounts(TallyLine(t, ls[0]), ls[1..], status);
    }
  }

  /** Under every chunking the counters are the numbers of matching lines of the
      whole stream; pass-through keeps every byte, strip mode exactly the other lines. */
  lemma {:induction false} ChunkInvariance(strip: bool, chunks: seq<Bytes>)
    ensures var s := Flatten(chunks);
      var end := Finalize(strip, FeedAll(strip, Start, chunks));
      && end.output == (if strip then Stripped(s) else s)
      && end.tally == TallyLines(NoItems, AllLines(s))
      && end.carry == []
    ensures forall status ::
      Finalize(strip, FeedAll(strip, Start, chunks)).tally.Count(status) == LinesWith(status, AllLines(Flatten(chunks)))
  {
    hide TallyLine, KeptLine, KeptRest, ItemOf;
    var s := Flatten(chunks);
    assert StateFor(strip, []) == Start;
    FeedAllState(strip, [], chunks);
    assert [] + s == s && s + [] == s;
    TallyAppend(NoItems, Lines(s), [Rest(s)]);
    var t := TallyLines(NoItems, Lines(s));
    assert TallyLines(t, [Rest(s)]) == TallyLines(TallyLine(t, Rest(s)), [Rest(s)][1..]);
    forall status ensures TallyLines(NoItems, AllLines(s)).Count(status) == LinesWith(status, AllLines(s)) {
      TallyCounts(NoItems, AllLines(s), status);
    }
  }

  class BorgItemActivityStreamFilter {
    const stripAddedModified: bool
    var carry: Bytes
    var tally: Tally

    constructor (stripAddedModified: bool)
      ensures this.stripAddedModified == stripAddedModified && carry == [] && tally == NoItems
    {
      this.stripAddedModified := stripAddedModified;
      carry, tally := [], NoItems;
    }

    /** The `finditer` loop: every line of `complete`, its last one possibly unterminated. */
    method ConsumeComplete(complete: Bytes)
      modifies this`tally
      ensures tally == TallyLines(old(tally), AllLines(complete))
    {
      hide TallyLine, ItemOf, FindByteFrom;
      var start := 0;
      assert complete[0..] == complete;
      while true
        invariant 0 <= start <= |complete|
        invariant TallyLines(old(tally), AllLines(complete)) == TallyLines(tally, AllLines(complete[start..]))
        decreases |complete| - start
      {
        var rest := complete[start..];
        var n := FindByte(rest, LF);
        if n < 0 {
          assert AllLines(rest) == [rest];
          assert TallyLines(tally, [rest]) == TallyLines(TallyLine(tally, rest), [rest][1..]);
          tally := TallyLine(tally, rest);
          return;
        }
        assert AllLines(rest) == [rest[..n]] + AllLines(rest[n + 1..]);
        assert complete[start + n + 1..] == rest[n + 1..];
        tally := TallyLine(tally, rest[..n]);
        start := start + n + 1;
      }
    }

    /** The substitution that deletes A/M lines from a block of terminated lines. */
    method DeleteAddedModified(complete: Bytes) returns (kept: Bytes)
      ensures kept == KeptLines(Lines(complete))
    {
      hide *;
      kept := [];
      var start := 0;
      assert complete[0..] == complete && [] + KeptLines(Lines(complete)) == KeptLines(Lines(complete));
      while true
        invariant 0 <= start <= |complete|
        invariant KeptLines(Lines(complete)) == kept + KeptLines(Lines(complete[start..]))
        decreases |complete| - start
      {
        var rest := complete[start..];
        var n := FindByte(rest, LF);
        if n < 0 {
          NothingComplete(NoItems, rest);
          assert kept + [] == kept;
          return;
        }
        KeptFirst(rest, n);
        Assoc(kept, KeptLine(rest[..n]), KeptLines(Lines(rest[n + 1..])));
        assert complete[start + n + 1..] == rest[n + 1..];
        kept := kept + KeptLine(rest[..n]);
        start := start + n + 1;
      }
    }

    method FeedData(data: Bytes) returns (output: Bytes)
      modifies this
      ensures var p := old(carry) + data;
        carry == Rest(p) && tally == TallyLines(old(tally), Lines(p))
        && output == if stripAddedModified then KeptLines(Lines(p)) else data
    {
      hide *;
      var payload := carry + data;
      var newline := RFindByte(payload, LF);
      SplitAtLastLf(payload);
      var complete := payload[..newline + 1];
      if newline < 0 {
        carry := payload;
        NothingComplete(tally, payload);
        assert payload[0..] == payload;
        return if stripAddedModified then [] else data;
      }
      carry := payload[newline + 1..];
      ConsumeIsTally(tally, complete);
      ConsumeComplete(complete);
      if !stripAddedModified {
        return data;
      }
      output := DeleteAddedModified(complete);
    }

    method FinalizeStream() returns (output: Bytes)
      modifies this
      ensures carry == [] && tally == TallyLine(old(tally), old(carry))
      ensures output == if stripAddedModified then KeptRest(old(carry)) else []
    {
      if carry == [] {
        return [];
      }
      var final := carry;
      carry := [];
      tally := TallyLine(tally, final);
      if stripAddedModified && RemovedRest(final) {
        return [];
      }
      return if stripAddedModified then final else [];
    }
  }

  lemma KeptFirst(s: Bytes, n: int)
    requires 0 <= n < |s| && n == FindByte(s, LF)
    ensures KeptLines(Lines(s)) == KeptLine(s[..n]) + KeptLines(Lines(s[n + 1..]))
  {
    hide KeptLine, FindByteFrom;
    assert Lines(s) == [s[..n]] + Lines(s[n + 1..]);
  }

  lemma NothingComplete(t: Tally, s: Bytes)
    requires FindByte(s, LF) < 0 || RFindByte(s, LF) < 0
    ensures Rest(s) == s && TallyLines(t, Lines(s)) == t && KeptLines(Lines(s)) == []
  {
    hide RFindByteBefore, FindByteFrom;
  }

  /** The empty unterminated rest of a block of whole lines is no item. */
  lemma ConsumeIsTally(t: Tally, complete: Bytes)
    requires Rest(complete) == []
    ensures TallyLines(t, AllLines(complete)) == TallyLines(t, Lines(complete))
  {
    hide FindByteFrom, FindByte;
    TallyAppend(t, Lines(complete), [[]]);
    var u := TallyLines(t, Lines(complete));
    assert TallyLines(u, [[]]) == TallyLines(TallyLine(u, []), [[]][1..]);
  }

  /** Driving the class over any chunks. */
  method FilterStream(strip: bool, chunks: seq<Bytes>) returns (output: Bytes, tally: Tally)
    ensures var s := Flatten(chunks);
      output == (if strip then Stripped(s) else s)
      && (forall status :: tally.Count(status) == LinesWith(status, AllLines(s)))
      && ShowsNewest(AllLines(s), tally)
  {
    hide ShowsNewest, TallyLine, KeptRest, KeptLines, Lines, Rest, TallyLines, Stripped, AllLines;
    var filter := new BorgItemActivityStreamFilter(strip);
    ghost var run := Start;
    output := [];
    for i := 0 to |chunks|
      invariant filter.stripAddedModified == strip
      invariant run == Run(filter.carry, filter.tally, output)
      invariant FeedAll(strip, Start, chunks) == FeedAll(strip, run, chunks[i..])
    {
      var piece := filter.FeedData(chunks[i]);
      output := output + piece;
      assert chunks[i..][1..] == chunks[i + 1..];
      run := Feed(strip, run, chunks[i]);
    }
    var last := filter.FinalizeStream();
    output := output + last;
    tally := filter.tally;
    ChunkInvariance(strip, chunks);
    TallyShowsNewest(AllLines(Flatten(chunks)));
  }
}
