/**
 * The fixed-size `Message` record of message_queues.cpp, which is copied whole into a POSIX
 * message queue: a type tag, a sequence number, the length of the content and a 256-character
 * buffer holding the content, filled with `strncpy` of at most 255 characters.
 *
 * `toString` reads `data_size` characters of the buffer. A content longer than the buffer
 * makes it read past the 256 characters, which C++ leaves undefined; here that read is an error
 * result.
 */
module Messages {
  import opened Wrappers
  import opened Bytes

  /** `sizeof(data)`. */
  const BUFFER_SIZE: nat := 256
  /** `sizeof(data) - 1`: the most characters the content constructor copies. */
  const COPY_LIMIT: nat := 255

  /** A C++ `int`. */
  newtype Int32 = x: int | -0x8000_0000 <= x < 0x8000_0000

  /** `Message::Type`. */
  datatype MessageType = Text | Command | Data | Response

  /** The numeric value of each enumerator. */
  function TypeCode(t: MessageType): (code: int)
    ensures 1 <= code <= 4
  {
    match t
    case Text => 1
    case Command => 2
    case Data => 3
    case Response => 4
  }

  datatype MessageError = ReadsPastBuffer

  function Min(a: nat, b: nat): nat { if a <= b then a else b }

  function Zeros(n: nat): (z: CString)
    ensures |z| == n && forall i :: 0 <= i < n ==> z[i] == NUL
  {
    seq(n, _ => NUL)
  }

  /** The length of the C string `s.c_str()`: the position of the first NUL, or `|s|`. */
  function CLength(s: CString): (k: nat)
    ensures k <= |s|
    ensures k < |s| ==> s[k] == NUL
    ensures k == |s| <==> NUL !in s
  {
    if s == [] then 0
    else if s[0] == NUL then 0
    else 1 + CLength(s[1..])
  }

  /** No character before `CLength` is a NUL. */
  lemma {:induction false} CLengthIsFirst(s: CString, i: nat)
    requires i < CLength(s)
    ensures s[i] != NUL
  {
    if i > 0 {
      CLengthIsFirst(s[1..], i - 1);
    }
  }

  /**
   * The first `n` characters `strncpy(dest, src.c_str(), n)` leaves in `dest`: the C string of
   * `src` cut to `n` characters, then NULs up to `n`.
   */
  function StrNCopy(src: CString, n: nat): (dest: CString)
    ensures |dest| == n
  {
    var k := Min(CLength(src), n);
    src[..k] + Zeros(n - k)
  }

  /** `strncpy` keeps a content without NUL up to `n` characters and pads it with NULs. */
  lemma StrNCopyKeeps(src: CString, n: nat)
    requires NUL !in src && |src| <= n
    ensures StrNCopy(src, n)[..|src|] == src
    ensures forall i :: |src| <= i < n ==> StrNCopy(src, n)[i] == NUL
  {
  }

  /** `strncpy` cuts a longer content to its first `n` characters and writes no NUL. */
  lemma StrNCopyTruncates(src: CString, n: nat)
    requires n <= |src| && NUL !in src[..n]
    ensures StrNCopy(src, n) == src[..n]
  {
  }

  /**
   * `strncpy(dest, src.c_str(), n)`: copies characters until the first NUL or `n` of them, then
   * fills with NULs up to `n`. Nothing from `n` on is written.
   */
  method StrNCopyInto(dest: array<CChar>, src: CString, n: nat)
    requires n <= dest.Length
    modifies dest
    ensures dest[..n] == StrNCopy(src, n)
    ensures dest[n..] == old(dest[n..])
  {
    var i := 0;
    while i < n && i < |src| && src[i] != NUL
      invariant i <= n && i <= |src|
      invariant forall j :: 0 <= j < i ==> src[j] != NUL
      invariant dest[..i] == src[..i]
      invariant dest[n..] == old(dest[n..])
    {
      dest[i] := src[i];
      i := i + 1;
    }
    ghost var copied := i;
    assert copied == Min(CLength(src), n) by {
      if copied < CLength(src) && copied < n {
        CLengthIsFirst(src, copied);
      }
    }
    while i < n
      invariant copied <= i <= n
      invariant dest[..copied] == src[..copied]
      invariant forall j :: copied <= j < i ==> dest[j] == NUL
      invariant dest[n..] == old(dest[n..])
    {
      dest[i] := NUL;
      i := i + 1;
    }
    assert dest[..n] == src[..copied] + Zeros(n - copied);
  }

  /**
   * `toString`: `std::string(data, data_size)`, the first `size` characters of the buffer,
   * whatever they are. A size beyond the buffer reads memory that is not part of it.
   */
  function Shown(buffer: CString, size: nat): (r: Result<CString, MessageError>)
    ensures r.Failure? <==> size > |buffer|
    ensures r.Success? ==> |r.value| == size
  {
    if size > |buffer| then Failure(ReadsPastBuffer) else Success(buffer[..size])
  }

  /**
   * A content of at most 255 characters without NUL comes back unchanged from `toString`,
   * whatever the unwritten last character of the buffer holds.
   */
  lemma ContentRoundTrip(content: CString, last: CChar)
    requires |content| <= COPY_LIMIT && NUL !in content
    ensures Shown(StrNCopy(content, COPY_LIMIT) + [last], |content|) == Success(content)
  {
    StrNCopyKeeps(content, COPY_LIMIT);
    assert (StrNCopy(content, COPY_LIMIT) + [last])[..|content|] == StrNCopy(content, COPY_LIMIT)[..|content|];
  }

  /** A NUL inside the content cuts it: `toString` shows NULs from there on, not the rest of the content. */
  lemma NulCutsContent(content: CString, last: CChar, k: nat)
    requires |content| <= COPY_LIMIT && k < |content| && content[k] == NUL
    requires exists i :: k < i < |content| && content[i] != NUL
    ensures Shown(StrNCopy(content, COPY_LIMIT) + [last], |content|) != Success(content)
  {
    var i :| k < i < |content| && content[i] != NUL;
    var buffer := StrNCopy(content, COPY_LIMIT) + [last];
    if CLength(content) > k {
      CLengthIsFirst(content, k);
    }
    assert buffer[i] == NUL;
    assert Shown(buffer, |content|).value[i] == NUL;
  }

  /** The size the content constructor records, as written: the whole length of the content. */
  function StoredSize(content: CString): nat
  {
    |content|
  }

  /** The size it evidently means to record: the characters the buffer actually received. */
  function ClampedSize(content: CString): (size: nat)
    ensures size <= COPY_LIMIT && size <= |content|
    ensures |content| <= COPY_LIMIT ==> size == |content|
  {
    Min(|content|, COPY_LIMIT)
  }

  /** Content of `n` letters `a`. */
  function Letters(n: nat): (s: CString)
    ensures |s| == n && NUL !in s
  {
    seq(n, _ => 'a')
  }

  /**
   * As written, a 256-character content makes `toString` end with the unwritten last character
   * of the buffer, and a 300-character one makes it read past the buffer.
   */
  lemma AsWrittenOverreads(last: CChar)
    ensures var r := Shown(StrNCopy(Letters(256), COPY_LIMIT) + [last], StoredSize(Letters(256)));
            r.Success? && r.value[..255] == Letters(255) && r.value[255] == last
    ensures Shown(StrNCopy(Letters(300), COPY_LIMIT) + [last], StoredSize(Letters(300))).Failure?
  {
    StrNCopyTruncates(Letters(256), COPY_LIMIT);
  }

  /**
   * With the size clamped, `toString` never reads past the buffer and gives the content cut to
   * 255 characters, which is the content itself when it fits.
   */
  lemma ClampedShowsPrefix(content: CString, last: CChar)
    requires NUL !in content
    ensures Shown(StrNCopy(content, COPY_LIMIT) + [last], ClampedSize(content))
         == Success(content[..ClampedSize(content)])
  {
    var size := ClampedSize(content);
    var buffer := StrNCopy(content, COPY_LIMIT) + [last];
    if |content| <= COPY_LIMIT {
      ContentRoundTrip(content, last);
      assert content[..size] == content;
    } else {
      StrNCopyTruncates(content, COPY_LIMIT);
      assert buffer[..size] == content[..COPY_LIMIT];
    }
  }

  /** `struct Message`. */
  class Message {
    var kind: MessageType
    var sequenceId: Int32
    var dataSize: nat
    const data: array<CChar>

    /** The default constructor: a TEXT message numbered 0 with an empty, all-NUL buffer. */
    constructor Empty()
      ensures kind == Text && sequenceId == 0 && dataSize == 0
      ensures data.Length == BUFFER_SIZE && data[..] == Zeros(BUFFER_SIZE)
      ensures ToString() == Success([])
    {
      kind := Text;
      sequenceId := 0;
      dataSize := 0;
      data := new CChar[BUFFER_SIZE](_ => NUL);
    }

    /**
     * The content constructor, as written: type and number are stored unchanged, the content
     * is copied with `strncpy` of 255 characters and its whole length is recorded. The last
     * character of the buffer is never written, so the contract says nothing about it.
     */
    constructor (t: MessageType, sq: Int32, content: CString)
      ensures kind == t && sequenceId == sq && dataSize == StoredSize(content)
      ensures data.Length == BUFFER_SIZE && data[..COPY_LIMIT] == StrNCopy(content, COPY_LIMIT)
      ensures |content| <= COPY_LIMIT && NUL !in content ==> ToString() == Success(content)
    {
      kind := t;
      sequenceId := sq;
      data := new CChar[BUFFER_SIZE](_ => NUL);
      dataSize := |content|;
      new;
      StrNCopyInto(data, content, COPY_LIMIT);
      assert data[..] == data[..COPY_LIMIT] + [data[COPY_LIMIT]];
      if |content| <= COPY_LIMIT && NUL !in content {
        ContentRoundTrip(content, data[COPY_LIMIT]);
      }
    }

    /** The content constructor with the recorded size clamped to what was copied. */
    constructor Clamped(t: MessageType, sq: Int32, content: CString)
      ensures kind == t && sequenceId == sq && dataSize == ClampedSize(content)
      ensures data.Length == BUFFER_SIZE && data[..COPY_LIMIT] == StrNCopy(content, COPY_LIMIT)
      ensures NUL !in content ==> ToString() == Success(content[..ClampedSize(content)])
    {
      kind := t;
      sequenceId := sq;
      data := new CChar[BUFFER_SIZE](_ => NUL);
      dataSize := ClampedSize(content);
      new;
      StrNCopyInto(data, content, COPY_LIMIT);
      assert data[..] == data[..COPY_LIMIT] + [data[COPY_LIMIT]];
      if NUL !in content {
        ClampedShowsPrefix(content, data[COPY_LIMIT]);
      }
    }

    /** `toString`: exactly `dataSize` characters of the buffer, or the read past its end. */
    function ToString(): (r: Result<CString, MessageError>)
      reads this, data
      ensures r.Failure? <==> dataSize > data.Length
      ensures r.Success? ==> r.value == data[..dataSize]
    {
      Shown(data[..], dataSize)
    }
  }
}
