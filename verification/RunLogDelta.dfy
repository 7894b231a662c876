/** Following a live log by offset: the delta reader and a client that appends its
    replies, or replaces its view when told to. */
module RunLogDelta {
  import opened ByteLines
  import opened Options

  const MIN_LIMIT := 4096

  datatype Reply = Reply(text: Bytes, offset: nat, reset: bool, truncated: bool)

  function Limit(maxBytes: int): (limit: nat)
    ensures limit >= MIN_LIMIT && limit >= maxBytes && (limit == MIN_LIMIT || limit == maxBytes)
  {
    if maxBytes > MIN_LIMIT then maxBytes else MIN_LIMIT
  }

  /** What `seek(start)` and `read(limit)` return; a shorter file yields nothing. */
  function ReadAt(content: Bytes, start: nat, limit: nat): (payload: Bytes)
    ensures |payload| <= limit
    ensures start + |payload| <= |content| || payload == []
    ensures start <= |content| ==> payload == content[start..start + |payload|]
    ensures start <= |content| <= start + limit ==> start + |payload| == |content|
    ensures start + limit <= |content| ==> |payload| == limit
  {
    if start >= |content| then []
    else if |content| - start <= limit then content[start..]
    else content[start..start + limit]
  }

  /** `read_run_log_delta`: `size` is what stat reported and `content` what the read found;
      either can fail, and the file can change between the two. */
  method ReadDelta(size: Option<nat>, content: Option<Bytes>, offset: int, maxBytes: int) returns (reply: Reply)
    ensures size.None? ==> reply == Reply([], 0, offset != 0, false)
    ensures size.Some? ==>
      var requested := if offset < 0 then 0 else offset;
      var lost := requested > size.value;
      var behind := size.value - (if lost then 0 else requested) > Limit(maxBytes);
      if content.None? then reply == Reply([], requested, false, false)
      else
        var start := if behind then size.value - Limit(maxBytes) else if lost then 0 else requested;
        && reply.reset == (lost || behind) && reply.truncated == behind
        && reply.text == ReadAt(content.value, start, Limit(maxBytes)) && reply.offset == start + |reply.text|
  {
    var limit := Limit(maxBytes);
    if size.None? {
      return Reply([], 0, offset != 0, false);
    }
    var requested := if offset < 0 then 0 else offset;
    var reset := requested > size.value;
    var start := if reset then 0 else requested;
    var truncated := false;
    if size.value - start > limit {
      start := if size.value > limit then size.value - limit else 0;
      reset := true;
      truncated := true;
    }
    if content.None? {
      return Reply([], requested, false, false);
    }
    var payload := ReadAt(content.value, start, limit);
    return Reply(payload, start + |payload|, reset, truncated);
  }

  // ---- the client ----

  /** One poll: how long the log was when it was stat'ed and when it was read. */
  datatype Poll = Poll(statted: Option<nat>, read: Option<nat>)

  /** An append-only log: lengths never shrink, within a poll or between polls. */
  predicate Growing(polls: seq<Poll>, from: nat, end: nat)
    decreases |polls|
  {
    if polls == [] then from <= end
    else
      var p := polls[0];
      var s := if p.statted.Some? then p.statted.value else from;
      var r := if p.read.Some? then p.read.value else s;
      from <= s <= r && Growing(polls[1..], r, end)
  }

  lemma {:induction false} GrowingNext(polls: seq<Poll>, from: nat, end: nat)
    requires Growing(polls, from, end)
    ensures from <= end
    decreases |polls|
  {
    if polls != [] {
      var p := polls[0];
      var s := if p.statted.Some? then p.statted.value else from;
      GrowingNext(polls[1..], if p.read.Some? then p.read.value else s, end);
    }
  }

  lemma GrowingStep(polls: seq<Poll>, i: nat, length: nat, end: nat)
    requires i < |polls| && Growing(polls[i..], length, end)
    ensures var p := polls[i];
      var s := if p.statted.Some? then p.statted.value else length;
      var r := if p.read.Some? then p.read.value else s;
      length <= s <= r <= end && Growing(polls[i + 1..], r, end)
  {
    assert polls[i..][0] == polls[i] && polls[i..][1..] == polls[i + 1..];
    var p := polls[i];
    var s := if p.statted.Some? then p.statted.value else length;
    GrowingNext(polls[i + 1..], if p.read.Some? then p.read.value else s, end);
  }

  class LogView {
    var text: Bytes
    var offset: nat
    /** Whether a reply ever asked to replace the view. */
    var everReset: bool

    constructor ()
      ensures text == [] && offset == 0 && !everReset
    {
      text, offset, everReset := [], 0, false;
    }

    /** The view is a contiguous part of the log that ends at the offset. */
    predicate ShowsPartOf(log: Bytes)
      reads this
    {
      && |text| <= offset <= |log| && text == log[offset - |text|..offset]
      && (!everReset ==> |text| == offset)
    }

    method Apply(reply: Reply)
      modifies this
      ensures text == if reply.reset then reply.text else old(text) + reply.text
      ensures offset == reply.offset && everReset == (old(everReset) || reply.reset)
    {
      text := if reply.reset then reply.text else text + reply.text;
      offset := reply.offset;
      everReset := everReset || reply.reset;
    }

    method FollowOne(log: Bytes, p: Poll, ghost length: nat, maxBytes: int)
      requires ShowsPartOf(log) && length <= |log|
      requires p.statted.Some? ==> offset <= p.statted.value <= length
      requires p.read.Some? ==> p.read.value == length
      requires offset <= length
      modifies this
      ensures ShowsPartOf(log) && offset <= length
    {
      hide ReadAt;
      var reply := ReadDelta(p.statted, if p.read.Some? then Some(log[..p.read.value]) else None, offset, maxBytes);
      if p.statted.Some? && p.read.Some? {
        ReadsPart(log, length, reply.offset - |reply.text|, Limit(maxBytes));
        if !reply.reset {
          Joined(log, offset - |text|, offset, reply.offset);
        }
      }
      Apply(reply);
    }

    /** Any polls of a growing log keep the view contiguous; a view that was never reset is
        the whole log up to its offset. */
    method Follow(log: Bytes, polls: seq<Poll>, maxBytes: int)
      requires ShowsPartOf(log) && Growing(polls, offset, |log|)
      modifies this
      ensures ShowsPartOf(log)
    {
      var i := 0;
      hide Growing;
      ghost var length := offset;
      assert polls[0..] == polls;
      while i < |polls|
        invariant 0 <= i <= |polls| && ShowsPartOf(log)
        invariant offset <= length && Growing(polls[i..], length, |log|)
      {
        var p := polls[i];
        ghost var statted := if p.statted.Some? then p.statted.value else length;
        GrowingStep(polls, i, length, |log|);
        length := if p.read.Some? then p.read.value else statted;
        FollowOne(log, p, length, maxBytes);
        i := i + 1;
      }
    }

    /** Once the log has stopped growing, one poll reaches its end. */
    method CatchUp(log: Bytes, maxBytes: int)
      requires ShowsPartOf(log)
      modifies this
      ensures ShowsPartOf(log) && offset == |log|
      ensures everReset == (old(everReset) || |log| - old(offset) > Limit(maxBytes))
      ensures text == if |log| - old(offset) > Limit(maxBytes) then log[|log| - Limit(maxBytes)..]
                      else old(text) + log[old(offset)..]
    {
      var reply := ReadDelta(Some(|log|), Some(log), offset, maxBytes);
      Apply(reply);
    }

    /** A log that was replaced, by a compaction for one, and grew past the offset again is
        not noticed: there is no reset, and the view is right only if nothing shown changed. */
    method PollReplaced(log: Bytes, replaced: Bytes, maxBytes: int) returns (reset: bool)
      requires ShowsPartOf(log)
      modifies this
      ensures reset <==> old(offset) > |replaced| || |replaced| - old(offset) > Limit(maxBytes)
      ensures everReset == (old(everReset) || reset)
      ensures reset ==> ShowsPartOf(replaced)
      ensures !reset ==> old(offset) <= |replaced| == offset && text == old(text) + replaced[old(offset)..]
      ensures !reset ==>
        var start := old(offset) - |old(text)|;
        ShowsPartOf(replaced) <==> log[start..old(offset)] == replaced[start..old(offset)]
    {
      var reply := ReadDelta(Some(|replaced|), Some(replaced), offset, maxBytes);
      Apply(reply);
      reset := reply.reset;
      ghost var start := old(offset) - |old(text)|;
      SamePart(log, replaced, start, old(offset));
      if !reset {
        assert old(text) == log[start..old(offset)];
        assert offset - |text| == start && replaced[start..offset] == replaced[start..];
      }
    }
  }

  /** The smallest such case: the log was [65] and is [66], and the client goes on showing the old byte. */
  method ReplacedUnnoticed() returns (view: Bytes, offset: nat, reset: bool)
    ensures !reset && offset == 1 && view == [65]
  {
    var client := new LogView();
    client.CatchUp([65], MIN_LIMIT);
    reset := client.PollReplaced([65], [66], MIN_LIMIT);
    return client.text, client.offset, reset;
  }

  lemma SamePart(log: Bytes, replaced: Bytes, start: nat, n: nat)
    requires start <= n <= |log|
    ensures n <= |replaced| ==>
      (log[start..n] + replaced[n..] == replaced[start..] <==> log[start..n] == replaced[start..n])
  {
    if n <= |replaced| {
      assert replaced[start..] == replaced[start..n] + replaced[n..];
      assert (log[start..n] + replaced[n..])[..n - start] == log[start..n];
      assert replaced[start..][..n - start] == replaced[start..n];
    }
  }

  lemma Joined(log: Bytes, a: nat, b: nat, c: nat)
    requires a <= b <= c <= |log|
    ensures log[a..b] + log[b..c] == log[a..c]
  {
  }

  /** What a reply to a poll of the growing log holds. */
  lemma ReadsPart(log: Bytes, read: nat, start: nat, limit: nat)
    requires start <= read <= |log|
    ensures var payload := ReadAt(log[..read], start, limit);
      start + |payload| <= read && payload == log[start..start + |payload|]
  {
  }
}
