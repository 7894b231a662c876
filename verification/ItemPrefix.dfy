/** The optional blanks and "Remote:" marker before the status letter of a Borg
    item line, shared by the item counter and the warning collector. */
module ItemPrefix {
  import opened ByteLines

  predicate Blank(b: Byte): (r: bool)
    ensures r <==> b in {9, 32}
  {
    b == SPACE || b == TAB
  }

  function SkipBlanks(s: Bytes): Bytes {
    if s != [] && Blank(s[0]) then SkipBlanks(s[1..]) else s
  }

  function Lower(b: Byte): Byte {
    if 65 <= b <= 90 then b + 32 else b
  }

  /** "remote:" in any letter case. */
  predicate StartsWithRemote(s: Bytes) {
    |s| >= 7 && Lower(s[0]) == 114 && Lower(s[1]) == 101 && Lower(s[2]) == 109 && Lower(s[3]) == 111
    && Lower(s[4]) == 116 && Lower(s[5]) == 101 && s[6] == 58
  }

  /** The line from its status letter on. */
  function FromStatus(l: Bytes): Bytes {
    var s := SkipBlanks(l);
    if StartsWithRemote(s) then SkipBlanks(s[7..]) else s
  }

  // ---- what the marker is ----

  /** "remote:" in any mixture of cases. */
  predicate RemoteWord(r: Bytes) {
    && |r| == 7 && r[0] in {82, 114} && r[1] in {69, 101} && r[2] in {77, 109} && r[3] in {79, 111}
    && r[4] in {84, 116} && r[5] in {69, 101} && r[6] == 58
  }

  predicate Blanks(s: Bytes) {
    forall k :: 0 <= k < |s| ==> Blank(s[k])
  }

  /** The line is an item behind blanks and perhaps the marker. */
  predicate BehindPrefix(l: Bytes, a: Bytes, remote: Bytes, b: Bytes, item: Bytes) {
    && l == a + remote + b + item && Blanks(a) && Blanks(b) && (RemoteWord(remote) || (remote == [] && b == []))
  }

  lemma StartsRemote(s: Bytes)
    ensures StartsWithRemote(s) <==> |s| >= 7 && RemoteWord(s[..7])
  {
  }

  lemma {:induction false} SkipPast(a: Bytes, s: Bytes)
    requires Blanks(a) && (s == [] || !Blank(s[0]))
    ensures SkipBlanks(a + s) == s
  {
    if a == [] {
      assert a + s == s;
    } else {
      assert (a + s)[1..] == a[1..] + s;
      SkipPast(a[1..], s);
    }
  }

  lemma {:induction false} SkippedBlanks(s: Bytes) returns (a: Bytes)
    ensures s == a + SkipBlanks(s) && Blanks(a) && (SkipBlanks(s) == [] || !Blank(SkipBlanks(s)[0]))
  {
    a := [];
    if s != [] && Blank(s[0]) {
      a := SkippedBlanks(s[1..]);
      a := [s[0]] + a;
    }
  }

  /** Behind a prefix an item is found, if it starts with neither a blank nor the marker. */
  lemma FromStatusIs(l: Bytes, a: Bytes, remote: Bytes, b: Bytes, item: Bytes)
    requires BehindPrefix(l, a, remote, b, item)
    requires item != [] && !Blank(item[0]) && (remote == [] ==> !StartsWithRemote(item))
    ensures FromStatus(l) == item
  {
    hide SkipBlanks, Blanks;
    var c := remote + b + item;
    assert l == a + c;
    SkipPast(a, c);
    SkipPast(b, item);
    StartsRemote(c);
    if remote == [] {
      assert c == item;
    } else {
      assert c[..7] == remote && c[7..] == b + item;
    }
  }

  /** What is found stands behind a prefix. */
  lemma FromStatusParts(l: Bytes) returns (a: Bytes, remote: Bytes, b: Bytes)
    ensures BehindPrefix(l, a, remote, b, FromStatus(l))
  {
    hide SkipBlanks, Blanks;
    a := SkippedBlanks(l);
    var c := SkipBlanks(l);
    StartsRemote(c);
    if StartsWithRemote(c) {
      remote := c[..7];
      b := SkippedBlanks(c[7..]);
      assert c == remote + c[7..];
    } else {
      remote, b := [], [];
      NoBlanks();
    }
  }

  lemma NoBlanks()
    ensures Blanks([])
  {
  }
}
