/**
 Attachments: a file is encrypted chunk by chunk into one preallocated buffer and decrypted chunk by chunk.
 Format: a version byte, the chunk size as a 32-bit word, then per chunk a fresh iv and the sealed bytes.
 */
module ChunkCodec {
  import opened Bytes
  import opened Words

  const ENC_CHUNK: nat := 4 * 1024 * 1024
  const MAX_FILE_BYTES: nat := 500 * 1024 * 1024
  const MAX_UPLOAD_BYTES: nat := 501 * 1024 * 1024
  const IV: nat := 12
  const TAG: nat := 16
  const HEADER: nat := 5
  const VERSION: byte := 1

  /** AES-GCM under the file's key, and the random ivs one encryption draws. */
  datatype Cipher = Cipher(enc: (bytes, bytes) -> bytes, dec: (bytes, bytes) -> Option<bytes>, iv: nat -> bytes) {
    ghost predicate Valid() {
      && (forall i :: |iv(i)| == IV)
      && (forall n, m :: |enc(n, m)| == |m| + TAG && dec(n, enc(n, m)) == Some(m))
      && (forall n, c :: |c| < TAG ==> dec(n, c) == None)
    }
  }

  /** The assumptions are consistent: a (useless) cipher meets every one of them. */
  lemma CipherExists() returns (a: Cipher)
    ensures a.Valid()
  {
    var dec := (n: bytes, c: bytes) => if |c| < TAG then None else Some(c[TAG..]);
    a := Cipher((n: bytes, m: bytes) => Zeros(TAG) + m, dec, _ => Zeros(IV));
    assert forall m: bytes :: (Zeros(TAG) + m)[TAG..] == m;
  }

  function Sealed(a: Cipher, i: nat, slice: bytes): (r: bytes)
    requires a.Valid()
    ensures |r| == |slice| + IV + TAG
  {
    a.iv(i) + a.enc(a.iv(i), slice)
  }

  /** The chunks of what is left of a file, the first of them with iv number `i`. Even nothing is a chunk. */
  function ChunksOf(a: Cipher, rest: bytes, i: nat): bytes
    requires a.Valid()
    decreases |rest|
  {
    if |rest| <= ENC_CHUNK then Sealed(a, i, rest)
    else Sealed(a, i, rest[..ENC_CHUNK]) + ChunksOf(a, rest[ENC_CHUNK..], i + 1)
  }

  const HEAD: bytes := [VERSION] + WordBytes(ENC_CHUNK)

  /** The whole encrypted file. */
  function Encoded(a: Cipher, file: bytes): bytes
    requires a.Valid()
  {
    HEAD + ChunksOf(a, file, 0)
  }

  /** `Math.max(1, Math.ceil(size / ENC_CHUNK))` */
  function Chunks(size: nat): nat {
    Max(1, (size + ENC_CHUNK - 1) / ENC_CHUNK)
  }

  /** Every chunk costs an iv and a tag, whatever the file size, exact multiples of the chunk included. */
  lemma {:induction false} ChunksSize(a: Cipher, rest: bytes, i: nat)
    requires a.Valid()
    ensures |ChunksOf(a, rest, i)| == 28 * Chunks(|rest|) + |rest|
    decreases |rest|
  {
    hide a.Valid;
    if |rest| > ENC_CHUNK { ChunksSize(a, rest[ENC_CHUNK..], i + 1); }
  }

  /** What the encoder still has to write when it has come to `start`. */
  function Remaining(a: Cipher, file: bytes, start: nat, i: nat): bytes
    requires a.Valid()
  {
    if start >= |file| > 0 then [] else ChunksOf(a, Sub(file, start, Max(start, |file|)), i)
  }

  lemma NothingRemains(a: Cipher, file: bytes, start: nat, i: nat)
    requires a.Valid()
    ensures start >= |file| > 0 ==> Remaining(a, file, start, i) == []
  {}

  lemma RemainingStep(a: Cipher, file: bytes, start: nat, i: nat)
    requires a.Valid() && (start < |file| || |file| == start == 0)
    ensures Remaining(a, file, start, i)
         == a.iv(i) + a.enc(a.iv(i), Sub(file, start, Max(start, Min(start + ENC_CHUNK, |file|))))
            + if |file| == 0 then [] else Remaining(a, file, start + ENC_CHUNK, i + 1)
  {
    var rest := Sub(file, start, Max(start, |file|));
    var slice := Sub(file, start, Max(start, Min(start + ENC_CHUNK, |file|)));
    if |rest| <= ENC_CHUNK {
      assert slice == rest;
    } else {
      assert slice == rest[..ENC_CHUNK];
      assert Sub(file, start + ENC_CHUNK, |file|) == rest[ENC_CHUNK..];
    }
  }

  lemma Starts(a: Cipher, file: bytes)
    requires a.Valid()
    ensures |HEAD| == HEADER
    ensures Encoded(a, file) == HEAD + Remaining(a, file, 0, 0)
  {
    assert Sub(file, 0, |file|) == file;
  }

  /** One round of the encoder's writes at the advancing offset. */
  method WriteChunk(out: array<byte>, off: nat, iv: bytes, ct: bytes) returns (off': nat)
    requires off + |iv| + |ct| <= out.Length
    modifies out
    ensures off' == off + |iv| + |ct|
    ensures out[..off'] == old(out[..off]) + iv + ct
  {
    SetAt(out, off, iv);
    off' := off + |iv|;
    SetAt(out, off', ct);
    off' := off' + |ct|;
  }

  lemma EncodedSize(a: Cipher, file: bytes)
    requires a.Valid()
    ensures |Encoded(a, file)| == HEADER + Chunks(|file|) * (IV + TAG) + |file|
  {
    Starts(a, file);
    ChunksSize(a, file, 0);
  }

  /** `encryptFileChunked`: every write lands inside the buffer allocated up front, and together they fill it. */
  method EncryptFileChunked(a: Cipher, file: bytes) returns (r: bytes)
    requires a.Valid()
    ensures r == Encoded(a, file)
    ensures |r| == 5 + 28 * Chunks(|file|) + |file|
  {
    hide Chunks, HEAD, Remaining, Encoded, Sub, a.Valid;
    var size := |file|;
    EncodedSize(a, file);
    var out := new byte[HEADER + Chunks(size) * (IV + TAG) + size];
    Starts(a, file);
    SetAt(out, 0, HEAD);
    var off: nat, start: nat, i: nat := HEADER, 0, 0;
    while start < size || (size == 0 && start == 0)
      invariant HEADER <= off <= out.Length && (size == 0 ==> start == 0)
      invariant out[..off] + Remaining(a, file, start, i) == Encoded(a, file)
      decreases size - start
    {
      var slice := Sub(file, start, Max(start, Min(start + ENC_CHUNK, size)));
      RemainingStep(a, file, start, i);
      off := WriteChunk(out, off, a.iv(i), a.enc(a.iv(i), slice));
      if size == 0 { break; }
      start, i := start + ENC_CHUNK, i + 1;
    }
    NothingRemains(a, file, start, i);
    r := out[..off];
  }

  // ---- reading it back -------------------------------------------------------

  /** The plaintext of the chunks in `rest`; None where opening one of them throws. */
  function Opened(a: Cipher, rest: bytes, chunk: nat): Option<bytes>
    decreases |rest|
  {
    if rest == [] then Some([])
    else
      var end := Min(IV + chunk + TAG, |rest|);
      match a.dec(Sub(rest, 0, IV), Sub(rest, IV, Max(IV, end)))
      case None => None
      case Some(pt) =>
        match Opened(a, rest[end..], chunk)
        case None => None
        case Some(more) => Some(pt + more)
  }

  /** The chunk size is the one the file names; a file too short to name one throws. */
  function Decoded(a: Cipher, raw: bytes): Option<bytes> {
    if |raw| < HEADER then None else Opened(a, raw[HEADER..], Word(raw[1..HEADER]))
  }

  function Joined(head: bytes, tail: Option<bytes>): Option<bytes> {
    match tail
    case None => None
    case Some(t) => Some(head + t)
  }

  lemma FlattenNothing()
    ensures Flatten([]) == []
  {}

  lemma JoinedLaws(head: bytes, mid: bytes, tail: Option<bytes>)
    ensures Joined(head + mid, tail) == Joined(head, Joined(mid, tail))
    ensures Joined([], tail) == tail
    ensures Joined(head, None) == None && Joined(head, Some([])) == Some(head)
  {
    assert head + [] == head;
    if tail.Some? { assert head + mid + tail.value == head + (mid + tail.value) && [] + tail.value == tail.value; }
  }

  lemma NothingOpens(a: Cipher, chunk: nat)
    ensures Opened(a, [], chunk) == Some([])
  {}

  /** The next round at the decoder's own offsets. A stub shorter than an iv does not open. */
  lemma NextOpened(a: Cipher, raw: bytes, off: nat, chunk: nat)
    requires a.Valid() && off < |raw|
    ensures var ctLen := Min(chunk + TAG, |raw| - (off + IV));
            var pt := a.dec(Sub(raw, off, off + IV), Sub(raw, off + IV, Max(off + IV, off + IV + ctLen)));
            && (pt.Some? ==> off + IV + ctLen >= off && off + IV <= off + IV + ctLen <= |raw|)
            && Opened(a, raw[off..], chunk)
               == if pt.None? then None else Joined(pt.value, Opened(a, raw[off + IV + ctLen..], chunk))
  {
    var rest := raw[off..];
    var ctLen := Min(chunk + TAG, |raw| - (off + IV));
    assert Sub(rest, 0, IV) == Sub(raw, off, off + IV);
    assert Sub(rest, IV, Max(IV, Min(IV + chunk + TAG, |rest|))) == Sub(raw, off + IV, Max(off + IV, off + IV + ctLen));
    if ctLen >= 0 { assert rest[Min(IV + chunk + TAG, |rest|)..] == raw[off + IV + ctLen..]; }
  }

  /** One round of the decoder's loop: read the iv, open what follows it. */
  method OpenNext(a: Cipher, raw: bytes, start: nat, chunk: nat) returns (pt: Option<bytes>, off: nat)
    requires a.Valid() && start < |raw|
    ensures pt.Some? ==> start < off <= |raw|
    ensures Opened(a, raw[start..], chunk)
         == if pt.None? then None else Joined(pt.value, Opened(a, raw[Min(off, |raw|)..], chunk))
  {
    hide a.Valid, Opened, Joined, Sub;
    NextOpened(a, raw, start, chunk);
    var iv := Sub(raw, start, start + IV);
    off := start + IV;
    var ctLen := Min(chunk + TAG, |raw| - off);
    pt := a.dec(iv, Sub(raw, off, Max(off, off + ctLen)));
    if pt.Some? { off := off + ctLen; }
  }

  /** `decryptChunkedToBlob`, on any bytes whatsoever: it ends, and yields the parts opened in order. */
  method DecryptChunked(a: Cipher, raw: bytes) returns (r: Option<bytes>)
    requires a.Valid()
    ensures r == Decoded(a, raw)
  {
    if |raw| < HEADER { return None; }
    var chunk := Word(raw[1..HEADER]);
    assert Decoded(a, raw) == Opened(a, raw[HEADER..], chunk);
    hide Opened, Flatten, Decoded, Joined, a.Valid;
    var parts: seq<bytes>, off: nat := [], HEADER;
    JoinedLaws([], [], Opened(a, raw[off..], chunk));
    assert Flatten(parts) == [] by { FlattenNothing(); }
    while off < |raw|
      invariant HEADER <= off <= |raw|
      invariant Decoded(a, raw) == Joined(Flatten(parts), Opened(a, raw[off..], chunk))
    {
      var pt, next := OpenNext(a, raw, off, chunk);
      if pt.None? {
        JoinedLaws(Flatten(parts), [], None);
        return None;
      }
      off := next;
      FlattenSnoc(parts, pt.value);
      JoinedLaws(Flatten(parts), pt.value, Opened(a, raw[off..], chunk));
      parts := parts + [pt.value];
    }
    NothingOpens(a, chunk);
    assert raw[off..] == [];
    JoinedLaws(Flatten(parts), [], Some([]));
    return Some(Flatten(parts));
  }

  /** One sealed chunk, then more: it opens to its slice and leaves the rest. */
  lemma OpensFirst(a: Cipher, slice: bytes, i: nat, tail: bytes)
    requires a.Valid() && |slice| <= ENC_CHUNK && (|slice| < ENC_CHUNK ==> tail == [])
    ensures Opened(a, Sealed(a, i, slice) + tail, ENC_CHUNK) == Joined(slice, Opened(a, tail, ENC_CHUNK))
  {
    var rest := Sealed(a, i, slice) + tail;
    var end := Min(IV + ENC_CHUNK + TAG, |rest|);
    assert end == IV + |slice| + TAG;
    assert Sub(rest, 0, IV) == a.iv(i);
    assert Sub(rest, IV, end) == a.enc(a.iv(i), slice);
    assert rest[end..] == tail;
  }

  lemma {:induction false} ChunksOpen(a: Cipher, rest: bytes, i: nat)
    requires a.Valid()
    ensures Opened(a, ChunksOf(a, rest, i), ENC_CHUNK) == Some(rest)
    decreases |rest|
  {
    hide a.Valid, Opened;
    if |rest| <= ENC_CHUNK {
      OpensFirst(a, rest, i, []);
      NothingOpens(a, ENC_CHUNK);
      assert Sealed(a, i, rest) + [] == Sealed(a, i, rest) && rest + [] == rest;
    } else {
      ChunksOpen(a, rest[ENC_CHUNK..], i + 1);
      OpensFirst(a, rest[..ENC_CHUNK], i, ChunksOf(a, rest[ENC_CHUNK..], i + 1));
      assert rest[..ENC_CHUNK] + rest[ENC_CHUNK..] == rest;
    }
  }

  /** Every file comes back byte for byte, the empty file and exact multiples of the chunk included. */
  lemma RoundTrip(a: Cipher, file: bytes)
    requires a.Valid()
    ensures Decoded(a, Encoded(a, file)) == Some(file)
  {
    hide Word, WordBytes, ChunksOf, Opened;
    var raw := Encoded(a, file);
    ChunksOpen(a, file, 0);
    WordOneToOne(ENC_CHUNK, WordBytes(ENC_CHUNK));
    assert raw[1..HEADER] == WordBytes(ENC_CHUNK);
    assert raw[HEADER..] == ChunksOf(a, file, 0);
  }

  /** The server's upload limit admits an encrypted file exactly up to this size, which covers every file
      the client agrees to send. */
  lemma FitsUploadLimit(a: Cipher, file: bytes)
    requires a.Valid()
    ensures |Encoded(a, file)| <= MAX_UPLOAD_BYTES <==> |file| <= 525_333_043
    ensures |file| <= MAX_FILE_BYTES ==> |Encoded(a, file)| < MAX_UPLOAD_BYTES
  {
    hide a.Valid, Encoded;
    EncodedSize(a, file);
  }

  // ---- what is in an encrypted file, byte for byte ------------------------------------

  /** The file begins with the version byte 1 and the chunk size 0x00400000, high byte first. */
  lemma HeaderLayout(a: Cipher, file: bytes)
    requires a.Valid()
    ensures var r := Encoded(a, file);
            |r| >= 5 && r[0] == 1 && IntOf(r[1]) == 0 && IntOf(r[2]) == 0x40 && IntOf(r[3]) == 0 && IntOf(r[4]) == 0
  {
    hide ChunksOf, IntOf, WordBytes;
    var b := WordBytes(ENC_CHUNK);
    HighByteFirst(ENC_CHUNK);
    assert Encoded(a, file)[1..5] == b;
    var r := Encoded(a, file);
    assert r[1] == b[0] && r[2] == b[1] && r[3] == b[2] && r[4] == b[3];
  }

  /** Chunk j of what is left, between what precedes and what follows it. */
  lemma {:induction false} ChunkSplit(a: Cipher, rest: bytes, i: nat, j: nat) returns (before: bytes, after: bytes)
    requires a.Valid() && (j == 0 || j * ENC_CHUNK < |rest|)
    ensures |before| == j * (ENC_CHUNK + 28)
    ensures ChunksOf(a, rest, i)
         == before + a.iv(i + j) + a.enc(a.iv(i + j), Sub(rest, j * ENC_CHUNK, (j + 1) * ENC_CHUNK)) + after
    ensures (j + 1) * ENC_CHUNK >= |rest| ==> after == []
    decreases j
  {
    hide a.Valid, Sub, ChunksOf;
    if j == 0 {
      before, after := [], if |rest| <= ENC_CHUNK then [] else ChunksOf(a, rest[ENC_CHUNK..], i + 1);
      FirstChunk(a, rest, i);
      assert [] + a.iv(i) == a.iv(i);
    } else {
      var tail, first := rest[ENC_CHUNK..], Sealed(a, i, rest[..ENC_CHUNK]);
      var b;
      b, after := ChunkSplit(a, tail, i + 1, j - 1);
      assert ChunksOf(a, rest, i) == first + ChunksOf(a, tail, i + 1) && |first| == ENC_CHUNK + 28 by {
        ChunksStep(a, rest, i);
      }
      before := first + b;
      SameSlice(rest, j);
      var iv, ct := a.iv(i + j), a.enc(a.iv(i + j), Sub(rest, j * ENC_CHUNK, (j + 1) * ENC_CHUNK));
      assert first + (b + iv + ct + after) == before + iv + ct + after;
    }
  }

  lemma ChunksStep(a: Cipher, rest: bytes, i: nat)
    requires a.Valid() && |rest| > ENC_CHUNK
    ensures |Sealed(a, i, rest[..ENC_CHUNK])| == ENC_CHUNK + 28
    ensures ChunksOf(a, rest, i) == Sealed(a, i, rest[..ENC_CHUNK]) + ChunksOf(a, rest[ENC_CHUNK..], i + 1)
  {}

  lemma SameSlice(rest: bytes, j: nat)
    requires j > 0 && j * ENC_CHUNK < |rest|
    ensures Sub(rest[ENC_CHUNK..], (j - 1) * ENC_CHUNK, j * ENC_CHUNK) == Sub(rest, j * ENC_CHUNK, (j + 1) * ENC_CHUNK)
  {}

  lemma FirstChunk(a: Cipher, rest: bytes, i: nat)
    requires a.Valid()
    ensures ChunksOf(a, rest, i)
         == a.iv(i) + a.enc(a.iv(i), Sub(rest, 0, ENC_CHUNK))
            + if |rest| <= ENC_CHUNK then [] else ChunksOf(a, rest[ENC_CHUNK..], i + 1)
  {
    assert |rest| <= ENC_CHUNK ==> Sub(rest, 0, ENC_CHUNK) == rest;
  }

  /** Where chunk j of a file stands: behind five bytes of header and j whole chunks, its iv first, then its
      slice of the file encrypted under that iv; after the last chunk nothing. */
  lemma EncodedLayout(a: Cipher, file: bytes, j: nat) returns (before: bytes, after: bytes)
    requires a.Valid() && (j == 0 || j * ENC_CHUNK < |file|)
    ensures |before| == 5 + j * (ENC_CHUNK + 28)
    ensures Encoded(a, file)
         == before + a.iv(j) + a.enc(a.iv(j), Sub(file, j * ENC_CHUNK, (j + 1) * ENC_CHUNK)) + after
    ensures (j + 1) * ENC_CHUNK >= |file| ==> after == []
  {
    hide ChunksOf, a.Valid, Sub, HEAD;
    var b;
    b, after := ChunkSplit(a, file, 0, j);
    before := HEAD + b;
    assert |HEAD| == 5 by { Starts(a, file); }
    var iv, ct := a.iv(j), a.enc(a.iv(j), Sub(file, j * ENC_CHUNK, (j + 1) * ENC_CHUNK));
    assert HEAD + (b + iv + ct + after) == before + iv + ct + after;
  }

  // ---- and what any bytes decode to ------------------------------------------------------

  datatype Piece = Piece(iv: bytes, ct: bytes)

  /** How many pieces of `step` bytes a body has, the last one possibly short. */
  function Pieces(size: nat, step: nat): nat
    requires step > 0
  {
    if size == 0 then 0 else if size <= step then 1 else 1 + Pieces(size - step, step)
  }

  /** Piece i of a body: 12 bytes of iv, then the rest of its `step` bytes, as far as there are any. */
  function PieceAt(body: bytes, step: nat, i: nat): Piece
    requires step >= 28
  {
    var at := i * step;
    Piece(Sub(body, at, at + 12), Sub(body, at + 12, at + step))
  }

  predicate Opens(a: Cipher, p: Piece) {
    a.dec(p.iv, p.ct).Some?
  }

  lemma {:induction false} OpenedByPieces(a: Cipher, body: bytes, chunk: nat, step: nat)
    requires a.Valid() && step == chunk + 28
    ensures Opened(a, body, chunk).Some?
       <==> forall i :: 0 <= i < Pieces(|body|, step) ==> Opens(a, PieceAt(body, step, i))
    decreases |body|
  {
    hide a.Valid;
    if body != [] {
      var end := Min(step, |body|);
      var tail := body[end..];
      OpenedByPieces(a, tail, chunk, step);
      FirstPiece(body, chunk);
      assert Pieces(|body|, step) == 1 + Pieces(|tail|, step);
      forall i: nat | i < Pieces(|tail|, step) ensures PieceAt(tail, step, i) == PieceAt(body, step, i + 1) {
        NextPiece(body, step, i);
      }
      assert Opened(a, body, chunk).Some? <==> Opens(a, PieceAt(body, step, 0)) && Opened(a, tail, chunk).Some?;
      hide Opened, PieceAt, Opens;
      if Opened(a, body, chunk).Some? {
        forall i | 0 <= i < Pieces(|body|, step) ensures Opens(a, PieceAt(body, step, i)) {
          if i > 0 { assert PieceAt(tail, step, i - 1) == PieceAt(body, step, i); }
        }
      } else if Opens(a, PieceAt(body, step, 0)) {
        var i :| 0 <= i < Pieces(|tail|, step) && !Opens(a, PieceAt(tail, step, i));
        assert PieceAt(body, step, i + 1) == PieceAt(tail, step, i);
      }
    }
  }

  lemma FirstPiece(body: bytes, chunk: nat)
    ensures PieceAt(body, chunk + 28, 0)
         == Piece(Sub(body, 0, IV), Sub(body, IV, Max(IV, Min(IV + chunk + TAG, |body|))))
  {}

  lemma NextPiece(body: bytes, step: nat, i: nat)
    requires step >= 28 && |body| > step
    ensures PieceAt(body[step..], step, i) == PieceAt(body, step, i + 1)
  {
    var at := i * step;
    assert (i + 1) * step == at + step;
    assert Sub(body[step..], at, at + 12) == Sub(body, at + step, at + step + 12);
    assert Sub(body[step..], at + 12, at + step) == Sub(body, at + step + 12, at + step + step);
  }

  /** Piece i of an encrypted file opens. */
  predicate OpensAt(a: Cipher, raw: bytes, i: nat)
    requires |raw| >= 5
  {
    Opens(a, PieceAt(raw[5..], Word(raw[1..5]) + 28, i))
  }

  /** Exactly what decodes, for all bytes: a chunk size must be there to read, and every piece the size cuts
      the rest into must open. One piece that does not, and nothing is returned. */
  lemma DecodesIff(a: Cipher, raw: bytes)
    requires a.Valid()
    ensures Decoded(a, raw).Some? <==>
            && |raw| >= 5
            && forall i :: 0 <= i < Pieces(|raw| - 5, Word(raw[1..5]) + 28) ==> OpensAt(a, raw, i)
  {
    hide Word, Opened, a.Valid;
    if |raw| >= 5 {
      var step := Word(raw[1..5]) + 28;
      OpenedByPieces(a, raw[5..], Word(raw[1..5]), step);
      assert forall i: nat :: OpensAt(a, raw, i) <==> Opens(a, PieceAt(raw[5..], step, i));
    }
  }
}
