/** vislib's AbstractSimpleMessage: one storage buffer holding a fixed-size
    header (message ID and body size, two little-endian 32-bit words) followed
    directly by the body. The storage policy of the derived message class
    (which owns the buffer) is modelled as a buffer that grows, never shrinks,
    and keeps its content when it is reallocated. */
module SimpleMessages {
  import opened Wrappers

  /** sizeof(SimpleMessageHeaderData): two 32-bit words. */
  const HEADER_SIZE: nat := 8

  /** The content of SimpleMessageHeaderData. */
  datatype Header = Header(messageId: Word, bodySize: Word)

  /** A 32-bit word as four little-endian bytes. */
  function EncodeWord(w: Word): (b: seq<Byte>)
    ensures |b| == 4
  {
    var r1 := w / 0x100;
    var r2 := r1 / 0x100;
    [w % 0x100, r1 % 0x100, r2 % 0x100, r2 / 0x100]
  }

  /** Four little-endian bytes as a 32-bit word. */
  function DecodeWord(b: seq<Byte>): Word
    requires |b| == 4
  {
    (b[0] as int) + 0x100 * ((b[1] as int) + 0x100 * ((b[2] as int) + 0x100 * (b[3] as int)))
  }

  lemma {:induction false} WordRoundTrip(w: Word)
    ensures DecodeWord(EncodeWord(w)) == w
  {
  }

  /** A byte and the bytes above it are recovered by division by 0x100. */
  lemma {:induction false} SplitByte(lo: Byte, hi: nat)
    ensures (lo + 0x100 * hi) % 0x100 == lo && (lo + 0x100 * hi) / 0x100 == hi
  {
  }

  lemma {:induction false} BytesRoundTrip(b: seq<Byte>)
    requires |b| == 4
    ensures EncodeWord(DecodeWord(b)) == b
  {
    var r2 := (b[2] as int) + 0x100 * (b[3] as int);
    var r1 := (b[1] as int) + 0x100 * r2;
    SplitByte(b[0], r1);
    SplitByte(b[1], r2);
    SplitByte(b[2], b[3]);
  }

  /** The header as it lies at the start of the storage. */
  function EncodeHeader(h: Header): (b: seq<Byte>)
    ensures |b| == HEADER_SIZE
  {
    EncodeWord(h.messageId) + EncodeWord(h.bodySize)
  }

  function DecodeHeader(b: seq<Byte>): Header
    requires |b| == HEADER_SIZE
  {
    Header(DecodeWord(b[..4]), DecodeWord(b[4..]))
  }

  /** Writing a header and reading it back gives the same header. */
  lemma {:induction false} HeaderRoundTrip(h: Header)
    ensures DecodeHeader(EncodeHeader(h)) == h
  {
    var b := EncodeHeader(h);
    assert b[..4] == EncodeWord(h.messageId);
    assert b[4..] == EncodeWord(h.bodySize);
    WordRoundTrip(h.messageId);
    WordRoundTrip(h.bodySize);
  }

  /** Reading header bytes and writing them back gives the same bytes: every
      byte pattern is some header. */
  lemma {:induction false} HeaderBytesRoundTrip(b: seq<Byte>)
    requires |b| == HEADER_SIZE
    ensures EncodeHeader(DecodeHeader(b)) == b
  {
    BytesRoundTrip(b[..4]);
    BytesRoundTrip(b[4..]);
    assert b == b[..4] + b[4..];
  }

  class SimpleMessage {
    /** The header data followed by the body. */
    var storage: array<Byte>

    /** The storage holds at least the header data. */
    ghost predicate Framed()
      reads this
    {
      HEADER_SIZE <= storage.Length
    }

    /** GetHeader: the header decoded from the start of the storage. */
    function GetHeader(): Header
      reads this, storage
      requires Framed()
    {
      DecodeHeader(storage[..HEADER_SIZE])
    }

    /** The storage also holds the body the header announces. */
    ghost predicate Valid()
      reads this, storage
    {
      Framed() && HEADER_SIZE + GetHeader().bodySize <= storage.Length
    }

    /** The header.bodySize bytes GetBody points at: they start right after
        the header data. */
    function Body(): (b: seq<Byte>)
      reads this, storage
      requires Valid()
      ensures |b| == GetHeader().bodySize
      ensures storage[..HEADER_SIZE + |b|] == EncodeHeader(GetHeader()) + b
    {
      HeaderBytesRoundTrip(storage[..HEADER_SIZE]);
      assert storage[..HEADER_SIZE + GetHeader().bodySize]
        == storage[..HEADER_SIZE] + storage[HEADER_SIZE..HEADER_SIZE + GetHeader().bodySize];
      storage[HEADER_SIZE..HEADER_SIZE + GetHeader().bodySize]
    }

    /** A message with a zero header and an empty body. */
    constructor ()
      ensures Valid() && fresh(storage)
      ensures GetHeader() == Header(0, 0)
    {
      storage := new Byte[HEADER_SIZE](_ => 0);
      new;
      assert storage[..HEADER_SIZE] == EncodeHeader(Header(0, 0));
      HeaderRoundTrip(Header(0, 0));
    }

    /** Writes `h` into the header data. */
    method WriteHeader(h: Header)
      requires Framed()
      modifies storage
      ensures GetHeader() == h
      ensures storage[..HEADER_SIZE] == EncodeHeader(h)
      ensures storage[HEADER_SIZE..] == old(storage[HEADER_SIZE..])
    {
      var b := EncodeHeader(h);
      forall i | 0 <= i < HEADER_SIZE {
        storage[i] := b[i];
      }
      assert storage[..HEADER_SIZE] == b;
      HeaderRoundTrip(h);
    }

    /** assertStorage: makes the storage hold the header and bodySize body
        bytes, reallocating if it is too small, and restores the header that
        was there before. */
    method AssertStorage(bodySize: nat)
      requires Framed()
      modifies this, storage
      ensures Framed()
      ensures GetHeader() == old(GetHeader())
      ensures storage.Length >= HEADER_SIZE + bodySize
      ensures storage.Length >= old(storage.Length)
      ensures storage[..old(storage.Length)] == old(storage[..])
      ensures old(storage.Length) >= HEADER_SIZE + bodySize ==> storage == old(storage)
      ensures storage == old(storage) || fresh(storage)
    {
      var oldHeader := GetHeader();
      if storage.Length < HEADER_SIZE + bodySize {
        var grown := new Byte[HEADER_SIZE + bodySize];
        forall i | 0 <= i < grown.Length {
          grown[i] := if i < storage.Length then storage[i] else 0;
        }
        assert grown[..storage.Length] == storage[..];
        storage := grown;
        WriteHeader(oldHeader);
        HeaderBytesRoundTrip(old(storage[..HEADER_SIZE]));
        assert storage[..old(storage.Length)]
          == storage[..HEADER_SIZE] + storage[HEADER_SIZE..][..old(storage.Length) - HEADER_SIZE];
        assert old(storage[..]) == old(storage[..HEADER_SIZE]) + old(storage[HEADER_SIZE..]);
      }
    }

    /** SetHeader: stores `h` and makes room for the body it announces; body
        bytes already stored are kept. */
    method SetHeader(h: Header)
      requires Framed()
      modifies this, storage
      ensures Valid()
      ensures GetHeader() == h
      ensures storage.Length >= old(storage.Length)
      ensures storage[HEADER_SIZE..old(storage.Length)] == old(storage[HEADER_SIZE..])
      ensures storage == old(storage) || fresh(storage)
    {
      WriteHeader(h);
      ghost var written := storage[..];
      AssertStorage(h.bodySize);
      assert storage[HEADER_SIZE..old(storage.Length)] == written[HEADER_SIZE..];
    }

    /** SetBody with the body copied behind the header. With bodySize == 0
        the header's own body size is copied into the existing body, without
        reallocation; otherwise the storage is made to hold bodySize bytes
        first. The header is never changed. */
    method SetBody(body: seq<Byte>, bodySize: nat)
      requires Valid()
      requires |body| >= if bodySize == 0 then GetHeader().bodySize else bodySize
      modifies this, storage
      ensures Valid()
      ensures GetHeader() == old(GetHeader())
      ensures bodySize == 0 ==> storage == old(storage) && Body() == body[..GetHeader().bodySize]
      ensures bodySize > 0 ==> HEADER_SIZE + bodySize <= storage.Length
      ensures bodySize > 0 ==> storage[HEADER_SIZE..HEADER_SIZE + bodySize] == body[..bodySize]
      ensures bodySize == 0 ==> forall i :: HEADER_SIZE + GetHeader().bodySize <= i < storage.Length ==> storage[i] == old(storage[i])
      ensures storage.Length >= old(storage.Length)
      ensures bodySize > 0 ==> forall i :: HEADER_SIZE + bodySize <= i < old(storage.Length) ==> storage[i] == old(storage[i])
    {
      var bs := if bodySize == 0 then GetHeader().bodySize else bodySize;
      if bodySize != 0 {
        AssertStorage(bodySize);
      }
      ghost var before := storage[..];
      forall i | HEADER_SIZE <= i < HEADER_SIZE + bs {
        storage[i] := body[i - HEADER_SIZE];
      }
      assert storage[..HEADER_SIZE] == before[..HEADER_SIZE];
      assert storage[HEADER_SIZE..HEADER_SIZE + bs] == body[..bs];
    }

    /** operator==: the headers are equal and so are the header.bodySize
        body bytes; compared byte by byte like memcmp. */
    method Equals(rhs: SimpleMessage) returns (eq: bool)
      requires Valid() && rhs.Valid()
      ensures eq <==> GetHeader() == rhs.GetHeader() && Body() == rhs.Body()
    {
      if GetHeader() != rhs.GetHeader() {
        return false;
      }
      var n := GetHeader().bodySize;
      var i := 0;
      while i < n
        invariant 0 <= i <= n
        invariant Body()[..i] == rhs.Body()[..i]
      {
        if storage[HEADER_SIZE + i] != rhs.storage[HEADER_SIZE + i] {
          assert Body()[i] != rhs.Body()[i];
          return false;
        }
        i := i + 1;
      }
      assert Body() == Body()[..i];
      assert rhs.Body() == rhs.Body()[..i];
      return true;
    }

    /** operator= copying rhs's whole message (header and rhs's body) into
        this storage after making room for it; assigning a message to itself,
        or to a message sharing its storage, changes nothing. */
    method Assign(rhs: SimpleMessage)
      requires Valid() && rhs.Valid()
      modifies this, storage
      ensures Valid() && rhs.Valid()
      ensures GetHeader() == rhs.GetHeader() && Body() == rhs.Body()
      ensures rhs.storage == old(rhs.storage) && rhs.storage[..] == old(rhs.storage[..])
      ensures this == rhs || old(storage) == old(rhs.storage) ==> storage == old(storage) && storage[..] == old(storage[..])
    {
      if this != rhs && storage != rhs.storage {
        var src := rhs.storage;
        var size := HEADER_SIZE + rhs.GetHeader().bodySize;
        AssertStorage(rhs.GetHeader().bodySize);
        CopyPrefix(storage, src, size);
        assert storage[..HEADER_SIZE] == storage[..size][..HEADER_SIZE];
        assert storage[HEADER_SIZE..size] == storage[..size][HEADER_SIZE..];
        assert src[..HEADER_SIZE] == src[..size][..HEADER_SIZE];
        assert src[HEADER_SIZE..size] == src[..size][HEADER_SIZE..];
      }
    }
  }

  // ---------------------------------------------------------------------
  // The two copies as written, on the storage bytes

  /** memcpy of the first size bytes of src into dst. */
  method CopyPrefix(dst: array<Byte>, src: array<Byte>, size: nat)
    requires dst != src && size <= dst.Length && size <= src.Length
    modifies dst
    ensures dst[..size] == src[..size]
    ensures dst[size..] == old(dst[size..])
  {
    forall i | 0 <= i < size {
      dst[i] := src[i];
    }
  }

  /** SetBody(body, n) with n > 0 as written: assertStorage returns the start
      of the storage, and the n body bytes are copied there, over the header. */
  function SetBodyAsWritten(storage: seq<Byte>, body: seq<Byte>, n: nat): (r: seq<Byte>)
    requires 0 < n <= |body|
    ensures |r| == if |storage| < HEADER_SIZE + n then HEADER_SIZE + n else |storage|
  {
    var grown := if |storage| < HEADER_SIZE + n then storage + seq(HEADER_SIZE + n - |storage|, _ => 0) else storage;
    body[..n] + grown[n..]
  }

  /** A header-sized body of 0xFF bytes, set on an empty message, replaces
      the header instead of filling the body. */
  lemma {:induction false} SetBodyOverwritesHeader()
    ensures var before := EncodeHeader(Header(0, 0));
      var after := SetBodyAsWritten(before, seq(HEADER_SIZE, _ => 0xFF), HEADER_SIZE);
      DecodeHeader(after[..HEADER_SIZE]) == Header(0xFFFF_FFFF, 0xFFFF_FFFF) != DecodeHeader(before)
  {
    HeaderRoundTrip(Header(0, 0));
    var after := SetBodyAsWritten(EncodeHeader(Header(0, 0)), seq(HEADER_SIZE, _ => 0xFF), HEADER_SIZE);
    assert after[..HEADER_SIZE] == seq(HEADER_SIZE, _ => 0xFF);
    assert after[..HEADER_SIZE][..4] == [0xFF, 0xFF, 0xFF, 0xFF];
    assert after[..HEADER_SIZE][4..] == [0xFF, 0xFF, 0xFF, 0xFF];
  }

  /** operator= as written: after assertStorage has grown the target for
      rhs's body (the bytes it adds hold `grownBytes`, whose content the
      storage policy decides), the copy length is the target's message size,
      computed from the target's own (old) header. */
  function AssignAsWritten(target: seq<Byte>, rhs: seq<Byte>, grownBytes: seq<Byte>): (r: seq<Byte>)
    requires |target| >= HEADER_SIZE && |rhs| >= HEADER_SIZE
    requires HEADER_SIZE + DecodeHeader(target[..HEADER_SIZE]).bodySize <= |target|
    requires HEADER_SIZE + DecodeHeader(target[..HEADER_SIZE]).bodySize <= |rhs|
    requires |target| < HEADER_SIZE + DecodeHeader(rhs[..HEADER_SIZE]).bodySize ==>
      |grownBytes| == HEADER_SIZE + DecodeHeader(rhs[..HEADER_SIZE]).bodySize - |target|
    ensures |r| >= |target|
  {
    var rhsSize := HEADER_SIZE + DecodeHeader(rhs[..HEADER_SIZE]).bodySize;
    var grown := if |target| < rhsSize then target + grownBytes else target;
    var copied := HEADER_SIZE + DecodeHeader(target[..HEADER_SIZE]).bodySize;
    rhs[..copied] + grown[copied..]
  }

  /** Assigning a message with a one-byte body b to an empty message copies
      only the header: the result announces rhs's body size, but its body
      byte is whatever the grown storage held, not b. */
  lemma {:induction false} AssignTruncatesBody(b: Byte, spare: Byte)
    ensures var target := EncodeHeader(Header(0, 0));
      var rhs := EncodeHeader(Header(0, 1)) + [b];
      var r := AssignAsWritten(target, rhs, [spare]);
      && DecodeHeader(r[..HEADER_SIZE]) == Header(0, 1)
      && r[HEADER_SIZE..HEADER_SIZE + 1] == [spare]
      && (spare != b ==> r[HEADER_SIZE..HEADER_SIZE + 1] != rhs[HEADER_SIZE..HEADER_SIZE + 1])
  {
    var target := EncodeHeader(Header(0, 0));
    var rhs := EncodeHeader(Header(0, 1)) + [b];
    HeaderRoundTrip(Header(0, 0));
    HeaderRoundTrip(Header(0, 1));
    assert rhs[..HEADER_SIZE] == EncodeHeader(Header(0, 1));
    var r := AssignAsWritten(target, rhs, [spare]);
    assert r[..HEADER_SIZE] == EncodeHeader(Header(0, 1));
    assert r[HEADER_SIZE..HEADER_SIZE + 1] == [spare];
    assert rhs[HEADER_SIZE..HEADER_SIZE + 1] == [b];
  }

}
