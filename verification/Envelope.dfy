/** The encrypted backup file: magic, header length, header, ciphertext, tag. The
    cipher is abstract: a stream cipher that works position by position, and a tag
    over the authenticated prefix and the ciphertext. */
module Envelope {
  import opened ByteLines
  import opened Options

  /** "BBM-BACKUP-1" and a line feed. */
  const MAGIC: Bytes := [66, 66, 77, 45, 66, 65, 67, 75, 85, 80, 45, 49, 10]
  const MIN_HEADER := 32
  const MAX_HEADER := 65536
  const TAG_SIZE := 16
  const CHUNK := 1024 * 1024

  /** What passphrase, salt and nonce determine. */
  datatype Cipher = Cipher(mask: (nat, Byte) -> Byte, tag: (Bytes, Bytes) -> Bytes)

  ghost predicate Sound(c: Cipher) {
    && (forall p: nat, b: Byte :: c.mask(p, c.mask(p, b)) == b)
    && (forall aad: Bytes, text: Bytes :: |c.tag(aad, text)| == TAG_SIZE)
  }

  /** How a header is read: whether it is a supported one, how large its file may be, and
      the cipher it names. */
  datatype Keys = Keys(supported: Bytes -> bool, maxSize: Bytes -> nat, cipher: Bytes -> Cipher)

  datatype Error = EmptyFile | UnknownFormat | HeaderCut | HeaderSize | HeaderInvalid | TooLarge | Incomplete | WrongTag

  datatype Result<+T> = Ok(value: T) | Err(error: Error)

  // ---- the length field ----

  function BigEndian(n: nat): (r: Bytes)
    requires n < 0x1_0000_0000
    ensures |r| == 4
  {
    var b0: int := n / 0x100_0000;
    var b1: int := n / 0x1_0000 % 0x100;
    var b2: int := n / 0x100 % 0x100;
    var b3: int := n % 0x100;
    [b0, b1, b2, b3]
  }

  function FromBigEndian(s: Bytes): nat
    requires |s| == 4
  {
    var b0: int, b1: int, b2: int, b3: int := s[0], s[1], s[2], s[3];
    b0 * 0x100_0000 + b1 * 0x1_0000 + b2 * 0x100 + b3
  }

  lemma BigEndianInverse(n: nat)
    requires n < 0x1_0000_0000
    ensures FromBigEndian(BigEndian(n)) == n
  {
    assert n == n / 0x100 * 0x100 + n % 0x100;
    assert n / 0x100 == n / 0x1_0000 * 0x100 + n / 0x100 % 0x100;
    assert n / 0x1_0000 == n / 0x100_0000 * 0x100 + n / 0x1_0000 % 0x100;
  }

  lemma FromBigEndianInverse(s: Bytes)
    requires |s| == 4
    ensures FromBigEndian(s) < 0x1_0000_0000 && BigEndian(FromBigEndian(s)) == s
  {
    var n := FromBigEndian(s);
    var b0: int, b1: int, b2: int, b3: int := s[0], s[1], s[2], s[3];
    assert n / 0x100 == b0 * 0x1_0000 + b1 * 0x100 + b2 && n % 0x100 == b3;
    assert n / 0x1_0000 == b0 * 0x100 + b1 && n / 0x100 % 0x100 == b2;
    assert n / 0x100_0000 == b0 && n / 0x1_0000 % 0x100 == b1;
  }

  /** The first byte that differs decides, so the most significant one comes first. */
  lemma FromBigEndianOrder(s: Bytes, t: Bytes, k: nat)
    requires |s| == |t| == 4 && k < 4 && s[..k] == t[..k] && s[k] < t[k]
    ensures FromBigEndian(s) < FromBigEndian(t)
  {
    assert forall j :: 0 <= j < k ==> s[j] == s[..k][j] == t[j];
  }

  // ---- the parts of the file ----

  /** The authenticated prefix. */
  function Prefix(header: Bytes): Bytes
    requires |header| < 0x1_0000_0000
  {
    MAGIC + BigEndian(|header|) + header
  }

  /** The text of positions start, start + 1, and so on, masked. */
  function Masked(c: Cipher, start: nat, text: Bytes): (r: Bytes)
    ensures |r| == |text|
    decreases |text|
  {
    if text == [] then [] else Masked(c, start, text[..|text| - 1]) + [c.mask(start + |text| - 1, text[|text| - 1])]
  }

  function File(c: Cipher, header: Bytes, payload: Bytes): Bytes
    requires |header| < 0x1_0000_0000
  {
    var text := Masked(c, 0, payload);
    Prefix(header) + text + c.tag(Prefix(header), text)
  }

  lemma {:induction false} MaskedAt(c: Cipher, start: nat, text: Bytes, k: nat)
    requires k < |text|
    ensures Masked(c, start, text)[k] == c.mask(start + k, text[k])
    decreases |text|
  {
    if k < |text| - 1 {
      MaskedAt(c, start, text[..|text| - 1], k);
    }
  }

  lemma {:induction false} MaskedAppend(c: Cipher, start: nat, a: Bytes, b: Bytes)
    ensures Masked(c, start, a + b) == Masked(c, start, a) + Masked(c, start + |a|, b)
    decreases |b|
  {
    if b == [] {
      assert a + b == a && Masked(c, start, a) + [] == Masked(c, start, a);
    } else {
      var rest := b[..|b| - 1];
      assert (a + b)[..|a + b| - 1] == a + rest;
      MaskedAppend(c, start, a, rest);
      Assoc(Masked(c, start, a), Masked(c, start + |a|, rest), [c.mask(start + |a| + |b| - 1, b[|b| - 1])]);
    }
  }

  lemma {:induction false} MaskedTwice(c: Cipher, start: nat, text: Bytes)
    requires Sound(c)
    ensures Masked(c, start, Masked(c, start, text)) == text
    decreases |text|
  {
    if text != [] {
      var rest := text[..|text| - 1];
      MaskedTwice(c, start, rest);
      assert Masked(c, start, text)[..|text| - 1] == Masked(c, start, rest);
    }
  }

  // ---- writing and reading ----

  /** `_encrypt_backup`, from the serialized header on; the payload is processed in chunks. */
  method Encrypt(c: Cipher, header: Bytes, payload: Bytes) returns (file: Bytes)
    requires |header| < 0x1_0000_0000
    ensures file == File(c, header, payload)
  {
    var aad := Prefix(header);
    file := aad;
    ghost var text: Bytes := [];
    var done := 0;
    while done < |payload|
      invariant 0 <= done <= |payload|
      invariant text == Masked(c, 0, payload[..done]) && file == aad + text
    {
      var end := if |payload| - done > CHUNK then done + CHUNK else |payload|;
      var chunk := payload[done..end];
      var encrypted := Masked(c, done, chunk);
      MaskedAppend(c, 0, payload[..done], chunk);
      assert payload[..end] == payload[..done] + chunk;
      Assoc(aad, text, encrypted);
      file := file + encrypted;
      text := text + encrypted;
      done := end;
    }
    assert payload[..done] == payload;
    file := file + c.tag(aad, Masked(c, 0, payload));
  }

  /** What a reader gets from the front of a file. */
  datatype Front = Front(header: Bytes, aad: Bytes, offset: nat)

  /** `_read_encrypted_header`. */
  function ReadHeader(keys: Keys, file: Bytes): Result<Front> {
    if file == [] then Err(EmptyFile)
    else if |file| < |MAGIC| || file[..|MAGIC|] != MAGIC then Err(UnknownFormat)
    else if |file| < |MAGIC| + 4 then Err(HeaderCut)
    else
      var raw := file[|MAGIC|..|MAGIC| + 4];
      var length := FromBigEndian(raw);
      if length < MIN_HEADER || length > MAX_HEADER then Err(HeaderSize)
      else if |file| < |MAGIC| + 4 + length then Err(HeaderCut)
      else
        var header := file[|MAGIC| + 4..|MAGIC| + 4 + length];
        if !keys.supported(header) then Err(HeaderInvalid)
        else if |file| > keys.maxSize(header) then Err(TooLarge)
        else Ok(Front(header, MAGIC + raw + header, |MAGIC| + 4 + length))
  }

  predicate Admissible(keys: Keys, header: Bytes, size: nat) {
    MIN_HEADER <= |header| <= MAX_HEADER && keys.supported(header) && size <= keys.maxSize(header)
  }

  lemma PrefixParts(header: Bytes, file: Bytes)
    requires |header| < 0x1_0000_0000
    ensures Prefix(header) <= file <==>
      && |file| >= |MAGIC| + 4 + |header| && file[..|MAGIC|] == MAGIC
      && file[|MAGIC|..|MAGIC| + 4] == BigEndian(|header|)
      && file[|MAGIC| + 4..|MAGIC| + 4 + |header|] == header
    ensures |Prefix(header)| == |MAGIC| + 4 + |header|
  {
    hide BigEndian;
    var length, p := BigEndian(|header|), Prefix(header);
    assert p[..|MAGIC|] == MAGIC && p[|MAGIC|..|MAGIC| + 4] == length && p[|MAGIC| + 4..] == header;
    if |file| >= |p| {
      var f := file[..|p|];
      assert f == f[..|MAGIC|] + f[|MAGIC|..|MAGIC| + 4] + f[|MAGIC| + 4..];
      assert f[..|MAGIC|] == file[..|MAGIC|] && f[|MAGIC|..|MAGIC| + 4] == file[|MAGIC|..|MAGIC| + 4];
      assert f[|MAGIC| + 4..] == file[|MAGIC| + 4..|MAGIC| + 4 + |header|];
    }
  }

  /** Reading succeeds exactly on the files that start with an authenticated prefix and are
      not too large for its header, and gives back the header, prefix and offset that were written. */
  lemma HeaderRead(keys: Keys, file: Bytes, header: Bytes)
    ensures Admissible(keys, header, |file|) && Prefix(header) <= file <==>
      ReadHeader(keys, file).Ok? && ReadHeader(keys, file).value.header == header
    ensures ReadHeader(keys, file).Ok? ==>
      var front := ReadHeader(keys, file).value;
      && Admissible(keys, front.header, |file|)
      && front.aad == Prefix(front.header) && front.offset == |front.aad| && front.aad <= file
  {
    hide FromBigEndian, BigEndian, Prefix;
    if Admissible(keys, header, |file|) {
      PrefixParts(header, file);
      BigEndianInverse(|header|);
    }
    if ReadHeader(keys, file).Ok? {
      var front := ReadHeader(keys, file).value;
      var raw := file[|MAGIC|..|MAGIC| + 4];
      FromBigEndianInverse(raw);
      PrefixParts(front.header, file);
      PrefixIs(front.header, raw);
    }
  }

  /** Why a file that starts with a written header is refused. */
  lemma WrittenHeaderRead(keys: Keys, file: Bytes, header: Bytes)
    requires |header| < 0x1_0000_0000 && Prefix(header) <= file
    ensures ReadHeader(keys, file) ==
      if |header| < MIN_HEADER || |header| > MAX_HEADER then Err(HeaderSize)
      else if !keys.supported(header) then Err(HeaderInvalid)
      else if |file| > keys.maxSize(header) then Err(TooLarge)
      else Ok(Front(header, Prefix(header), |Prefix(header)|))
  {
    hide FromBigEndian, BigEndian, Prefix;
    PrefixParts(header, file);
    BigEndianInverse(|header|);
    PrefixIs(header, BigEndian(|header|));
  }

  /** Why any other file is: it is empty, it starts otherwise, its length field is cut or out of
      range, or the header is cut. */
  lemma OtherFileRead(keys: Keys, file: Bytes)
    ensures file == [] ==> ReadHeader(keys, file) == Err(EmptyFile)
    ensures file != [] && !(MAGIC <= file) ==> ReadHeader(keys, file) == Err(UnknownFormat)
    ensures MAGIC <= file && |file| < 17 ==> ReadHeader(keys, file) == Err(HeaderCut)
    ensures forall n: nat :: n < 0x1_0000_0000 && MAGIC + BigEndian(n) <= file ==>
      && (n < 32 || n > 65536 ==> ReadHeader(keys, file) == Err(HeaderSize))
      && (32 <= n <= 65536 && |file| < 17 + n ==> ReadHeader(keys, file) == Err(HeaderCut))
  {
    hide FromBigEndian, BigEndian;
    forall n: nat | n < 0x1_0000_0000 && MAGIC + BigEndian(n) <= file
      ensures MAGIC <= file && |file| >= 17 && FromBigEndian(file[13..17]) == n
    {
      BigEndianInverse(n);
      assert file[13..17] == (MAGIC + BigEndian(n))[13..17] == BigEndian(n);
      assert file[..13] == (MAGIC + BigEndian(n))[..13] == MAGIC;
    }
  }

  lemma PrefixIs(header: Bytes, raw: Bytes)
    requires |header| < 0x1_0000_0000 && raw == BigEndian(|header|)
    ensures Prefix(header) == MAGIC + raw + header
  {
  }

  /** `_decrypt_backup`: the ciphertext is read in chunks, the tag is compared at the end. */
  method Decrypt(keys: Keys, file: Bytes) returns (r: Result<Bytes>)
    requires forall header: Bytes :: Sound(keys.cipher(header))
    ensures forall payload: Bytes :: r == Ok(payload) <==>
      exists header: Bytes :: Opens(keys, file, header, payload)
    ensures ReadHeader(keys, file).Err? ==> r == Err(ReadHeader(keys, file).error)
    ensures ReadHeader(keys, file).Ok? && r.Err? ==>
      r.error == if |file| <= ReadHeader(keys, file).value.offset + TAG_SIZE then Incomplete else WrongTag
  {
    hide ReadHeader, Masked, Prefix, File;
    var front := ReadHeader(keys, file);
    forall header: Bytes, payload: Bytes | Opens(keys, file, header, payload)
      ensures front.Ok? && front.value.header == header && |file| - front.value.offset - TAG_SIZE > 0
        && payload == Masked(keys.cipher(header), 0, file[front.value.offset..|file| - TAG_SIZE])
        && file[|file| - TAG_SIZE..]
           == keys.cipher(header).tag(front.value.aad, file[front.value.offset..|file| - TAG_SIZE])
    {
      OpensOnlyWhat(keys, file, header, payload);
    }
    if front.Err? {
      return Err(front.error);
    }
    var header, aad, offset := front.value.header, front.value.aad, front.value.offset;
    HeaderRead(keys, file, header);
    if |file| - offset - TAG_SIZE <= 0 {
      return Err(Incomplete);
    }
    var c := keys.cipher(header);
    var stop := |file| - TAG_SIZE;
    var tag := file[stop..];
    var payload: Bytes := [];
    var done := offset;
    assert file[offset..offset] == [] && Masked(c, 0, []) == [];
    while done < stop
      invariant offset <= done <= stop
      invariant payload == Masked(c, 0, file[offset..done])
    {
      var end := if stop - done > CHUNK then done + CHUNK else stop;
      var chunk := file[done..end];
      MaskedAppend(c, 0, file[offset..done], chunk);
      assert file[offset..end] == file[offset..done] + chunk;
      payload := payload + Masked(c, done - offset, chunk);
      done := end;
    }
    if tag != c.tag(aad, file[offset..stop]) {
      return Err(WrongTag);
    }
    WhatOpens(keys, file, header, payload);
    return Ok(payload);
  }

  /** The file is what encrypting a non-empty payload under this header writes. */
  predicate Opens(keys: Keys, file: Bytes, header: Bytes, payload: Bytes) {
    Admissible(keys, header, |file|) && payload != [] && file == File(keys.cipher(header), header, payload)
  }

  lemma FileParts(c: Cipher, header: Bytes, payload: Bytes)
    requires |header| < 0x1_0000_0000 && Sound(c)
    ensures var file, p, text := File(c, header, payload), |Prefix(header)|, Masked(c, 0, payload);
      && p + |payload| + TAG_SIZE == |file| && Prefix(header) <= file
      && file[p..|file| - TAG_SIZE] == text && file[|file| - TAG_SIZE..] == c.tag(Prefix(header), text)
  {
    hide Prefix, Masked;
    assert |c.tag(Prefix(header), Masked(c, 0, payload))| == TAG_SIZE;
  }

  lemma OpensOnlyWhat(keys: Keys, file: Bytes, header: Bytes, payload: Bytes)
    requires Sound(keys.cipher(header)) && Opens(keys, file, header, payload)
    ensures var front := ReadHeader(keys, file);
      && front.Ok? && front.value.header == header && front.value.aad <= file
      && front.value.offset == |front.value.aad| && |file| - front.value.offset - TAG_SIZE > 0
      && payload == Masked(keys.cipher(header), 0, file[front.value.offset..|file| - TAG_SIZE])
      && file[|file| - TAG_SIZE..]
         == keys.cipher(header).tag(front.value.aad, file[front.value.offset..|file| - TAG_SIZE])
  {
    hide ReadHeader, Masked, Prefix, File;
    FileParts(keys.cipher(header), header, payload);
    HeaderRead(keys, file, header);
    MaskedTwice(keys.cipher(header), 0, payload);
  }

  lemma WhatOpens(keys: Keys, file: Bytes, header: Bytes, payload: Bytes)
    requires Sound(keys.cipher(header)) && Admissible(keys, header, |file|) && Prefix(header) <= file
    requires |file| - |Prefix(header)| - TAG_SIZE > 0
    requires var text := file[|Prefix(header)|..|file| - TAG_SIZE];
      && payload == Masked(keys.cipher(header), 0, text)
      && file[|file| - TAG_SIZE..] == keys.cipher(header).tag(Prefix(header), text)
    ensures Opens(keys, file, header, payload)
  {
    hide Masked, Prefix;
    var p := |Prefix(header)|;
    MaskedTwice(keys.cipher(header), 0, file[p..|file| - TAG_SIZE]);
    assert file == file[..p] + file[p..|file| - TAG_SIZE] + file[|file| - TAG_SIZE..];
  }

  /** Encrypting and decrypting gives the payload back, or says why not: the size of the header,
      an unsupported header, a file that is too large, or nothing to encrypt. */
  method RoundTrip(keys: Keys, header: Bytes, payload: Bytes) returns (r: Result<Bytes>)
    requires |header| < 0x1_0000_0000
    requires forall h: Bytes :: Sound(keys.cipher(h))
    ensures r ==
      if |header| < MIN_HEADER || |header| > MAX_HEADER then Err(HeaderSize)
      else if !keys.supported(header) then Err(HeaderInvalid)
      else if 17 + |header| + |payload| + 16 > keys.maxSize(header) then Err(TooLarge)
      else if payload == [] then Err(Incomplete)
      else Ok(payload)
  {
    hide ReadHeader, Opens, File;
    var file := Encrypt(keys.cipher(header), header, payload);
    OneHeader(keys, header, payload, file);
    OpensOnly(keys, header, payload, file);
    WrittenHeaderRead(keys, file, header);
    r := Decrypt(keys, file);
  }

  lemma OpensOnly(keys: Keys, header: Bytes, payload: Bytes, file: Bytes)
    requires |header| < 0x1_0000_0000 && Sound(keys.cipher(header))
    requires file == File(keys.cipher(header), header, payload)
    ensures Prefix(header) <= file && |Prefix(header)| == 17 + |header|
    ensures |file| == 17 + |header| + |payload| + 16
    ensures forall text: Bytes :: Opens(keys, file, header, text) ==> text != [] && |text| == |payload|
  {
    hide Masked, Prefix, File;
    PrefixParts(header, file);
    FileParts(keys.cipher(header), header, payload);
    forall text: Bytes | Opens(keys, file, header, text) ensures |text| == |payload| {
      FileParts(keys.cipher(header), header, text);
    }
  }

  /** The header of a file is unique, so an inadmissible one is never taken for another. */
  lemma OneHeader(keys: Keys, header: Bytes, payload: Bytes, file: Bytes)
    requires |header| < 0x1_0000_0000 && Sound(keys.cipher(header))
    requires forall h: Bytes :: Sound(keys.cipher(h))
    requires file == File(keys.cipher(header), header, payload)
    ensures forall other: Bytes, text: Bytes :: Opens(keys, file, other, text) ==> other == header
    ensures |file| == |MAGIC| + 4 + |header| + |payload| + TAG_SIZE
    ensures payload != [] && Admissible(keys, header, |file|) ==> Opens(keys, file, header, payload)
  {
    hide Prefix, Masked, File, FromBigEndian, BigEndian;
    FileParts(keys.cipher(header), header, payload);
    PrefixParts(header, file);
    BigEndianInverse(|header|);
    forall other: Bytes, text: Bytes | Opens(keys, file, other, text) ensures other == header {
      FileParts(keys.cipher(other), other, text);
      PrefixParts(other, file);
      BigEndianInverse(|other|);
    }
  }
}
