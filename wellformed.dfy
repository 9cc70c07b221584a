/** What the reader does with a well-formed RFC 7464 stream, in which every
    JSON text is written as the Record Separator, the text and a line feed
    (section 2.2 of RFC 7464), and with input that ends a record without the
    line feed. */
module WellFormed {
  import opened Whitespace
  import opened Framing

  /** The line feed an RFC 7464 encoder writes after every text. */
  const LineFeed: byte := 0x0A

  /** The texts, each written as separator, text, line feed. */
  function Encode(rs: byte, texts: seq<seq<byte>>): seq<byte>
    decreases |texts|
  {
    if texts == [] then [] else [rs] + texts[0] + [LineFeed] + Encode(rs, texts[1..])
  }

  /** An encoding less its first separator. */
  function Body(rs: byte, texts: seq<seq<byte>>): seq<byte>
    requires |texts| >= 1
  {
    texts[0] + [LineFeed] + Encode(rs, texts[1..])
  }

  /** The values this reader yields for the leading texts of a well-formed
      stream, in order: those texts that are not all whitespace (the
      reader's own filter), the first with progress `progress` and each next
      one with the next count. */
  function Expected(decode: Decoder, texts: seq<seq<byte>>, progress: nat): seq<Yield>
    decreases |texts|
  {
    if texts == [] then []
    else
      (if HasNonWhiteSpace(decode(texts[0])) then [Yield(texts[0], progress)] else [])
      + Expected(decode, texts[1..], progress + 1)
  }

  /** Splitting what follows the first separator of an encoding. */
  lemma {:induction false} ScanBody(rs: byte, decode: Decoder, texts: seq<seq<byte>>, total: nat)
    requires rs != LineFeed
    requires |texts| >= 1
    requires forall i :: 0 <= i < |texts| ==> rs !in texts[i]
    ensures Scan(rs, decode, Body(rs, texts), total)
      == Framed(Expected(decode, texts[..|texts| - 1], total + 1), texts[|texts| - 1] + [LineFeed], total + |texts| - 1)
    decreases |texts|
  {
    var x := texts[0];
    var body := Body(rs, texts);
    assert rs !in x;
    if |texts| == 1 {
      assert Encode(rs, texts[1..]) == [];
      assert body == x + [LineFeed];
      ScanWithoutSeparator(rs, decode, body, total);
    } else {
      var more := texts[1..];
      BodySplit(rs, texts);
      IndexOfFirst(body, rs);
      assert body[..|x| + 1][..|x|] == x;
      ScanAtFirstSeparator(rs, decode, body, |x| + 1, total);
      ScanBody(rs, decode, more, total + 1);
      assert texts[..|texts| - 1][1..] == more[..|more| - 1];
    }
  }

  /** The first separator after the first one ends the first text and its
      line feed; the rest of the encoding follows it. */
  lemma BodySplit(rs: byte, texts: seq<seq<byte>>)
    requires rs != LineFeed
    requires |texts| >= 2
    requires rs !in texts[0]
    ensures var x, body := texts[0], Body(rs, texts);
      && IndexOf(body, rs) == |x| + 1
      && body[..|x| + 1] == x + [LineFeed]
      && body[|x| + 2..] == Body(rs, texts[1..])
  {
    var x, body := texts[0], Body(rs, texts);
    var more := texts[1..];
    var tail := Body(rs, more);
    assert Encode(rs, more) == [rs] + tail by {
      assert Encode(rs, more) == [rs] + more[0] + [LineFeed] + Encode(rs, more[1..]);
    }
    assert body == (x + [LineFeed]) + [rs] + tail;
    IndexOfIs(body, rs, |x| + 1);
    assert body[..|x| + 1] == x + [LineFeed];
    assert body[|x| + 2..] == tail;
  }

  /** A well-formed stream of `n` texts, split from a fresh reader: every
      text except the last one that is not all whitespace is yielded, exactly
      (the byte dropped before each separator is the encoder's line feed),
      in order, text `i` (from 0) with progress `i + 2`; the last text and
      its line feed stay in the buffer; and the counter is `n`. */
  lemma FrameEncoded(rs: byte, decode: Decoder, texts: seq<seq<byte>>)
    requires rs != LineFeed
    requires |texts| >= 1
    requires forall i :: 0 <= i < |texts| ==> rs !in texts[i]
    ensures Frame(rs, decode, Encode(rs, texts))
      == Framed(Expected(decode, texts[..|texts| - 1], 2), texts[|texts| - 1] + [LineFeed], |texts|)
  {
    var stream := Encode(rs, texts);
    assert stream == [rs] + Body(rs, texts);
    ScanDropsLeadingSeparator(rs, decode, stream, 0);
    assert stream[1..] == Body(rs, texts);
    ScanBody(rs, decode, texts, 1);
  }

  /** When every text has a non-whitespace character, nothing is filtered. */
  lemma {:induction false} ExpectedKeepsAll(decode: Decoder, texts: seq<seq<byte>>, progress: nat)
    requires forall i :: 0 <= i < |texts| ==> HasNonWhiteSpace(decode(texts[i]))
    ensures var vs := Expected(decode, texts, progress);
      |vs| == |texts| && forall i :: 0 <= i < |texts| ==> vs[i] == Yield(texts[i], progress + i)
    decreases |texts|
  {
    if texts != [] {
      ExpectedKeepsAll(decode, texts[1..], progress + 1);
      var vs := Expected(decode, texts, progress);
      assert vs == [Yield(texts[0], progress)] + Expected(decode, texts[1..], progress + 1);
    }
  }

  /** So the last text of a well-formed stream is never yielded, however
      valid it is: a stream of one text yields nothing at all. */
  lemma LastTextIsNotYielded(rs: byte, decode: Decoder, text: seq<byte>)
    requires rs != LineFeed && rs !in text
    ensures Frame(rs, decode, Encode(rs, [text])) == Framed([], text + [LineFeed], 1)
  {
    FrameEncoded(rs, decode, [text]);
  }

  /** A record closed by a separator alone, with no line feed, loses its
      last byte, whatever that byte is: `b` is not part of what is yielded. */
  lemma DropsByteBeforeSeparator(rs: byte, decode: Decoder, a: seq<byte>, b: byte)
    requires rs !in a && b != rs
    requires HasNonWhiteSpace(decode(a))
    ensures Frame(rs, decode, [rs] + a + [b] + [rs]) == Framed([Yield(a, 2)], [], 2)
  {
    var stream := [rs] + a + [b] + [rs];
    var tail := a + [b] + [rs];
    assert stream[0] == rs && stream[1..] == tail;
    assert tail[..|a| + 1] == a + [b] && tail[|a| + 1] == rs;
    assert tail[..|a|] == a && tail[|a| + 2..] == [];
    calc {
      Frame(rs, decode, stream);
      Scan(rs, decode, stream, 0);
      { ScanDropsLeadingSeparator(rs, decode, stream, 0); }
      Scan(rs, decode, tail, 1);
      { ScanAtFirstSeparator(rs, decode, tail, |a| + 1, 1); }
      Framed([Yield(a, 2)] + Scan(rs, decode, [], 2).values, Scan(rs, decode, [], 2).rest, Scan(rs, decode, [], 2).total);
      { ScanWithoutSeparator(rs, decode, [], 2); }
      Framed([Yield(a, 2)], [], 2);
    }
  }

  /** The progress callback is documented as receiving the count of parsed
      objects, but it receives the count of separators consumed. In a
      well-formed stream of texts that are none of them all whitespace, the
      i-th value yielded (from 0) is the (i + 1)-th object parsed, yet its
      progress is i + 2: every count reported is one more than the number of
      objects parsed so far. */
  lemma ProgressIsNotObjectCount(rs: byte, decode: Decoder, texts: seq<seq<byte>>)
    requires rs != LineFeed
    requires |texts| >= 1
    requires forall i :: 0 <= i < |texts| ==> rs !in texts[i] && HasNonWhiteSpace(decode(texts[i]))
    ensures var vs := Frame(rs, decode, Encode(rs, texts)).values;
      |vs| == |texts| - 1 && forall i :: 0 <= i < |vs| ==> vs[i].progress == i + 2
  {
    FrameEncoded(rs, decode, texts);
    ExpectedKeepsAll(decode, texts[..|texts| - 1], 2);
  }

  /** The smallest case: two well-formed texts, the first one an object,
      and the callback reports 2 when one object has been parsed. */
  lemma OneObjectReportedAsTwo(rs: byte, decode: Decoder, t0: seq<byte>, t1: seq<byte>)
    requires rs != LineFeed && rs !in t0 && rs !in t1
    requires HasNonWhiteSpace(decode(t0))
    ensures Frame(rs, decode, Encode(rs, [t0, t1])).values == [Yield(t0, 2)]
  {
    FrameEncoded(rs, decode, [t0, t1]);
    assert [t0, t1][..1] == [t0];
    assert Expected(decode, [t0], 2) == [Yield(t0, 2)] + Expected(decode, [], 3);
  }
}
