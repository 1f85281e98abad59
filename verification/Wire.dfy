/** Length-prefixed framing: every field is preceded by its length as two big-endian bytes. */
module Wire {
  import opened Bytes

  const MAX_FIELD: nat := 0xffff

  function Hi(n: nat): byte requires n <= MAX_FIELD { ByteOf(n / 256) }
  function Lo(n: nat): byte requires n <= MAX_FIELD { ByteOf(n % 256) }

  /** `(hi << 8) | lo` */
  function Length(hi: byte, lo: byte): (n: nat)
    ensures n <= MAX_FIELD
  {
    256 * IntOf(hi) + IntOf(lo)
  }

  lemma LengthRoundTrip(n: nat)
    requires n <= MAX_FIELD
    ensures Length(Hi(n), Lo(n)) == n
  {}

  lemma LengthInjective(hi: byte, lo: byte)
    ensures Hi(Length(hi, lo)) == hi && Lo(Length(hi, lo)) == lo
  {
    hide IntOf, ByteOf;
    var n := Length(hi, lo);
    assert n / 256 == IntOf(hi) && n % 256 == IntOf(lo);
    ByteOfInt(hi);
    ByteOfInt(lo);
  }

  function Frame(f: bytes): (r: bytes)
    requires |f| <= MAX_FIELD
    ensures |r| == |f| + 2
  {
    [Hi(|f|), Lo(|f|)] + f
  }

  /** On the wire: the length, high byte first, then the field. */
  lemma FrameLayout(f: bytes)
    requires |f| <= MAX_FIELD
    ensures IntOf(Frame(f)[0]) == |f| / 256 && IntOf(Frame(f)[1]) == |f| % 256 && Frame(f)[2..] == f
  {}

  predicate Fits(fields: seq<bytes>) {
    forall i :: 0 <= i < |fields| ==> |fields[i]| <= MAX_FIELD
  }

  function Framed(fields: seq<bytes>): bytes
    requires Fits(fields)
  {
    if fields == [] then [] else Frame(fields[0]) + Framed(fields[1..])
  }

  function Prepend(out: seq<bytes>, r: Option<seq<bytes>>): Option<seq<bytes>> {
    match r
    case None => None
    case Some(rest) => Some(out + rest)
  }

  lemma FramedCons(f: bytes, rest: seq<bytes>)
    ensures Fits([f] + rest) <==> |f| <= MAX_FIELD && Fits(rest)
    ensures Fits([f] + rest) ==> |Framed([f] + rest)| == |f| + 2 + |Framed(rest)|
  {
    var fields := [f] + rest;
    assert fields[0] == f && fields[1..] == rest;
    if |f| <= MAX_FIELD && Fits(rest) {
      forall i | 0 <= i < |fields| ensures |fields[i]| <= MAX_FIELD {
        if i > 0 { assert fields[i] == rest[i-1]; }
      }
    }
    if Fits(fields) {
      forall i | 0 <= i < |rest| ensures |rest[i]| <= MAX_FIELD { assert rest[i] == fields[i+1]; }
    }
  }

  /** The fields `b` begins with, read one frame at a time. */
  function Parse(b: bytes, count: nat): (r: Option<seq<bytes>>)
    ensures r.Some? ==> |r.value| == count
    decreases count
  {
    if count == 0 then Some([])
    else if |b| < 2 then None
    else
      var len := Length(b[0], b[1]);
      if 2 + len > |b| then None
      else
        Prepend([b[2..2 + len]], Parse(b[2 + len..], count - 1))
  }

  /** One frame at the front, then whatever the rest is read as. */
  lemma ParseStep(b: bytes, count: nat)
    requires count > 0 && Parse(b, count).Some?
    ensures |b| >= 2 && 2 + Length(b[0], b[1]) <= |b|
    ensures var len := Length(b[0], b[1]);
            var rest := Parse(b[2 + len..], count - 1);
            rest.Some? && Parse(b, count) == Some([b[2..2 + len]] + rest.value)
  {
    hide Length;
  }

  lemma FrontFrame(b: bytes)
    requires |b| >= 2 && 2 + Length(b[0], b[1]) <= |b|
    ensures var len := Length(b[0], b[1]);
            len <= MAX_FIELD && Frame(b[2..2 + len]) == b[..2 + len]
  {
    hide Hi, Lo, Length;
    LengthInjective(b[0], b[1]);
  }

  lemma FramedFront(f: bytes, rest: seq<bytes>)
    requires |f| <= MAX_FIELD && Fits(rest)
    ensures Fits([f] + rest) && Framed([f] + rest) == Frame(f) + Framed(rest)
  {
    hide Frame;
    FramedCons(f, rest);
    assert ([f] + rest)[1..] == rest;
  }

  /** Whatever is read is what the buffer begins with. */
  lemma {:induction false} ParsedIsPrefix(b: bytes, count: nat)
    ensures var r := Parse(b, count);
            r.Some? ==> |r.value| == count && Fits(r.value) && Framed(r.value) <= b
    decreases count
  {
    hide Parse, Framed, Frame, Length, Fits;
    if count == 0 {
      assert Parse(b, 0) == Some([]) && Fits([]) && Framed([]) == [] by { NothingParsed(b); }
    } else if Parse(b, count).Some? {
      ParseStep(b, count);
      FrontFrame(b);
      var len := Length(b[0], b[1]);
      ParsedIsPrefix(b[2 + len..], count - 1);
      FramedFront(b[2..2 + len], Parse(b[2 + len..], count - 1).value);
      assert b == b[..2 + len] + b[2 + len..];
    }
  }

  lemma NothingParsed(b: bytes)
    ensures Parse(b, 0) == Some([]) && Fits([]) && Framed([]) == []
  {}

  /** A buffer that begins with a framing is read back as those fields. */
  lemma {:induction false} PrefixIsParsed(b: bytes, fields: seq<bytes>)
    requires Fits(fields) && Framed(fields) <= b
    ensures Parse(b, |fields|) == Some(fields)
  {
    hide Hi, Lo, Length, Fits, Frame, Parse;
    if fields == [] {
      NothingParsed(b);
    } else {
      var f, rest := fields[0], fields[1..];
      assert fields == [f] + rest;
      FramedCons(f, rest);
      FramedFront(f, rest);
      assert b[..|Frame(f)|] == Frame(f);
      FrameRead(b, f);
      assert Framed(rest) <= b[2 + |f|..];
      PrefixIsParsed(b[2 + |f|..], rest);
      ParseOne(b, |f|, |rest|);
    }
  }

  lemma FrameRead(b: bytes, f: bytes)
    requires |f| <= MAX_FIELD && Frame(f) <= b
    ensures |b| >= 2 + |f| && Length(b[0], b[1]) == |f| && b[2..2 + |f|] == f
  {
    hide Hi, Lo, Length;
    LengthRoundTrip(|f|);
    assert b[0] == Frame(f)[0] && b[1] == Frame(f)[1];
  }

  lemma ParseOne(b: bytes, len: nat, count: nat)
    requires 2 + len <= |b| && Length(b[0], b[1]) == len
    ensures Parse(b, count + 1) == Prepend([b[2..2 + len]], Parse(b[2 + len..], count))
  {
    hide Length;
  }

  /**
   Framing is exact in both directions: `count` fields are read from `b` if and only if `b` begins
   with the framing of those very fields. Whatever follows them is ignored.
   */
  lemma ParseExact(b: bytes, count: nat, fields: seq<bytes>)
    ensures Parse(b, count) == Some(fields) <==> |fields| == count && Fits(fields) && Framed(fields) <= b
  {
    ParsedIsPrefix(b, count);
    if |fields| == count && Fits(fields) && Framed(fields) <= b { PrefixIsParsed(b, fields); }
  }

  /** Fields follow each other in order. */
  lemma FramedPair(f: bytes, g: bytes)
    requires |f| <= MAX_FIELD && |g| <= MAX_FIELD
    ensures Framed([f, g]) == Frame(f) + Frame(g)
  {
    hide Hi, Lo;
    assert [f, g][1..] == [g] && [g][1..] == [];
    assert Framed([g]) == Frame(g) + Framed([]);
  }

  /** Unpacking what was packed gives the fields back, whatever tail follows. */
  lemma RoundTrip(fields: seq<bytes>, tail: bytes)
    requires Fits(fields)
    ensures Parse(Framed(fields) + tail, |fields|) == Some(fields)
  {
    ParseExact(Framed(fields) + tail, |fields|, fields);
  }

  lemma {:induction false} FramedSnoc(fields: seq<bytes>, f: bytes)
    requires Fits(fields) && |f| <= MAX_FIELD
    ensures Fits(fields + [f]) && Framed(fields + [f]) == Framed(fields) + Frame(f)
  {
    if fields == [] {
      assert fields + [f] == [f];
      assert [f][1..] == [];
    } else {
      assert (fields + [f])[1..] == fields[1..] + [f];
      FramedSnoc(fields[1..], f);
    }
  }

  /** The framing, None where `pack` throws. */
  function Packed(fields: seq<bytes>): Option<bytes> {
    if Fits(fields) then Some(Framed(fields)) else None
  }

  /** `pack`: it fails exactly when some field is too long for its two length bytes. */
  method Pack(fields: seq<bytes>) returns (r: Option<bytes>)
    ensures r == Packed(fields)
  {
    hide Hi, Lo;
    var parts: seq<bytes> := [];
    for i := 0 to |fields|
      invariant Fits(fields[..i])
      invariant Flatten(parts) == Framed(fields[..i])
    {
      var f := fields[i];
      if |f| > MAX_FIELD { return None; }
      var len: bytes := [Hi(|f|), Lo(|f|)];
      FlattenSnoc(parts, len);
      FlattenSnoc(parts + [len], f);
      FramedSnoc(fields[..i], f);
      assert fields[..i+1] == fields[..i] + [f];
      parts := parts + [len] + [f];
    }
    assert fields[..|fields|] == fields;
    var out := ConcatBytes(parts);
    return Some(out);
  }

  /** `unpack` walks an offset through the buffer and cuts the fields out. */
  method Unpack(b: bytes, count: nat) returns (r: Option<seq<bytes>>)
    ensures r == Parse(b, count)
  {
    hide Length, Parse, Prepend;
    var out: seq<bytes> := [];
    var off := 0;
    assert b[0..] == b;
    PrependNothing(Parse(b, count));
    for i := 0 to count
      invariant 0 <= off <= |b|
      invariant Parse(b, count) == Prepend(out, Parse(b[off..], count - i))
    {
      NextParsed(b, off, count - i);
      PrependMore(out, [], None);
      if off + 2 > |b| { return None; }
      var len := Length(b[off], b[off + 1]);
      off := off + 2;
      if off + len > |b| { return None; }
      var field := b[off..off + len];
      PrependMore(out, field, Parse(b[off + len..], count - i - 1));
      out := out + [field];
      off := off + len;
    }
    AllParsed(b, off, out);
    return Some(out);
  }

  /** One round of the walk, at its own offsets. */
  lemma NextParsed(b: bytes, off: nat, count: nat)
    requires off <= |b| && count > 0
    ensures Parse(b[off..], count)
         == if off + 2 > |b| || off + 2 + Length(b[off], b[off + 1]) > |b| then None
            else
              var next := off + 2 + Length(b[off], b[off + 1]);
              Prepend([b[off + 2..next]], Parse(b[next..], count - 1))
  {
    hide Length;
    var rest := b[off..];
    if off + 2 <= |b| {
      var len := Length(b[off], b[off + 1]);
      if off + 2 + len <= |b| {
        assert rest[2..2 + len] == b[off + 2..off + 2 + len] && rest[2 + len..] == b[off + 2 + len..];
      }
    }
  }

  lemma AllParsed(b: bytes, off: nat, out: seq<bytes>)
    requires off <= |b|
    ensures Prepend(out, Parse(b[off..], 0)) == Some(out)
  {
    assert out + [] == out;
  }

  lemma PrependNothing(r: Option<seq<bytes>>)
    ensures Prepend([], r) == r
  {
    assert r.Some? ==> [] + r.value == r.value;
  }

  lemma PrependMore(out: seq<bytes>, f: bytes, r: Option<seq<bytes>>)
    ensures Prepend(out, Prepend([f], r)) == Prepend(out + [f], r)
    ensures Prepend(out, None) == None
  {
    assert r.Some? ==> out + ([f] + r.value) == out + [f] + r.value;
  }
}
