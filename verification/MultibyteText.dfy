/** Byte strings in a multibyte server encoding, seen as sequences of characters. */
module MultibyteText {

  import opened Bytes

  /** One encoded character: a nonempty run of bytes. */
  type Glyph = seq<byte>

  /** pg_mblen: how many bytes the character at the head of the bytes takes. */
  type MbLen = seq<byte> -> nat

  ghost predicate WellEncoded(mblen: MbLen, b: seq<byte>)
    decreases |b|
  {
    b != [] ==> 1 <= mblen(b) <= |b| && WellEncoded(mblen, b[mblen(b)..])
  }

  ghost function Glyphs(mblen: MbLen, b: seq<byte>): seq<Glyph>
    requires WellEncoded(mblen, b)
    decreases |b|
  {
    if b == [] then [] else [b[..mblen(b)]] + Glyphs(mblen, b[mblen(b)..])
  }

  /** Bytes taken by the first k characters. */
  ghost function Offset(g: seq<Glyph>, k: nat): nat
    requires k <= |g|
  {
    if k == 0 then 0 else Offset(g, k - 1) + |g[k - 1]|
  }

  /** Character k of g lies in the data at its offset. */
  ghost predicate LiesAt(g: seq<Glyph>, data: seq<byte>, k: nat)
    requires k < |g|
  {
    && 0 < |g[k]| && Offset(g, k) + |g[k]| <= |data|
    && data[Offset(g, k)..Offset(g, k) + |g[k]|] == g[k]
  }

  /** The data is the characters of g one after the other. */
  ghost predicate LaidOut(g: seq<Glyph>, data: seq<byte>) {
    Offset(g, |g|) == |data| && forall k: nat :: k < |g| ==> LiesAt(g, data, k)
  }

  lemma {:induction false} OffsetShift(x: Glyph, g: seq<Glyph>, k: nat)
    requires k <= |g|
    ensures Offset([x] + g, k + 1) == |x| + Offset(g, k)
  {
    if k > 0 { OffsetShift(x, g, k - 1); }
  }

  lemma {:induction false} GlyphsLaidOut(mblen: MbLen, b: seq<byte>)
    requires WellEncoded(mblen, b)
    ensures LaidOut(Glyphs(mblen, b), b)
    decreases |b|
  {
    if b != [] {
      var l := mblen(b);
      var rest := Glyphs(mblen, b[l..]);
      var g := Glyphs(mblen, b);
      GlyphsLaidOut(mblen, b[l..]);
      OffsetShift(b[..l], rest, |rest|);
      forall k: nat | k < |g| ensures LiesAt(g, b, k) {
        if k > 0 {
          OffsetShift(b[..l], rest, k - 1);
          assert LiesAt(rest, b[l..], k - 1);
        }
      }
    }
  }

  /** What pg_mblen answers at the offset of character k. */
  lemma {:induction false} LengthAt(mblen: MbLen, b: seq<byte>, k: nat)
    requires WellEncoded(mblen, b) && k <= |Glyphs(mblen, b)|
    ensures var g := Glyphs(mblen, b);
            Offset(g, k) <= |b| && WellEncoded(mblen, b[Offset(g, k)..]) &&
            Glyphs(mblen, b[Offset(g, k)..]) == g[k..]
    decreases k
  {
    if k > 0 {
      var l := mblen(b);
      LengthAt(mblen, b[l..], k - 1);
      OffsetShift(b[..l], Glyphs(mblen, b[l..]), k - 1);
      assert b[l..][Offset(Glyphs(mblen, b[l..]), k - 1)..] == b[Offset(Glyphs(mblen, b), k)..];
    } else {
      assert b[0..] == b;
    }
  }

  lemma {:induction false} OffsetGrows(g: seq<Glyph>, data: seq<byte>, k: nat)
    requires LaidOut(g, data) && k <= |g|
    ensures k <= Offset(g, k) && Offset(g, k) + (|g| - k) <= |data|
    decreases |g| - k
  {
    OffsetAtLeast(g, data, k);
    if k < |g| {
      OffsetGrows(g, data, k + 1);
      assert LiesAt(g, data, k);
    }
  }

  lemma {:induction false} OffsetAtLeast(g: seq<Glyph>, data: seq<byte>, k: nat)
    requires LaidOut(g, data) && k <= |g|
    ensures k <= Offset(g, k)
  {
    if k > 0 {
      OffsetAtLeast(g, data, k - 1);
      assert LiesAt(g, data, k - 1);
    }
  }

  /** As many characters as bytes: every character is one byte. */
  lemma {:induction false} SingleBytes(g: seq<Glyph>, data: seq<byte>, k: nat)
    requires LaidOut(g, data) && |g| == |data| && k < |g|
    ensures Offset(g, k) == k && g[k] == [data[k]]
  {
    OffsetGrows(g, data, k);
    OffsetGrows(g, data, k + 1);
    assert LiesAt(g, data, k);
  }

  /** pg_mbstrlen_with_len: the number of characters. */
  method CountGlyphs(mblen: MbLen, b: seq<byte>) returns (len: nat)
    requires WellEncoded(mblen, b)
    ensures len == |Glyphs(mblen, b)|
  {
    len := 0;
    var at := 0;
    ghost var g := Glyphs(mblen, b);
    while at < |b|
      invariant len <= |g| && at == Offset(g, len) <= |b|
      invariant at == |b| ==> len == |g|
    {
      LengthAt(mblen, b, len);
      GlyphsLaidOut(mblen, b);
      at := at + mblen(b[at..]);
      len := len + 1;
      OffsetGrows(g, b, len);
    }
  }
}
