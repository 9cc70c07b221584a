/** The reader itself: the state `jsonSeqReader` keeps between reads (the
    unconsumed bytes `all` and the counter `total`), the step it takes on
    each chunk, and the generator as a whole over the chunks a stream
    delivers. */
module Reader {
  import opened Whitespace
  import opened Framing

  /** The generator's local state between two `reader.read()` calls. */
  class Framer {
    /** The separator byte (`RS`, 0x1E unless the caller gives another). */
    const rs: byte
    /** The `TextDecoder` the reader applies to each candidate record. */
    const decode: Decoder
    /** The bytes read but not yet consumed. */
    var all: seq<byte>
    /** The number of separators consumed. */
    var total: nat
    /** Everything read so far, and everything yielded so far. */
    ghost var stream: seq<byte>
    ghost var yielded: seq<Yield>

    /** The state is what splitting everything read so far, in one go,
        from a fresh reader gives. */
    ghost predicate Valid()
      reads this
    {
      Frame(rs, decode, stream) == Framed(yielded, all, total)
    }

    /** A fresh reader: counter 0 and an empty buffer. */
    constructor (rs: byte, decode: Decoder)
      ensures Valid()
      ensures this.rs == rs && this.decode == decode
      ensures all == [] && total == 0 && stream == [] && yielded == []
    {
      this.rs := rs;
      this.decode := decode;
      all := [];
      total := 0;
      stream := [];
      yielded := [];
    }

    /** One chunk `value` delivered by the stream: it is appended to the
        buffer, then, while the buffer holds a separator, the counter goes up,
        a separator at the head is dropped, and otherwise the bytes before the
        separator, less the last one, are decoded and yielded if the text is
        not all whitespace, and the buffer continues after the separator. */
    method Feed(value: seq<byte>) returns (out: seq<Yield>)
      requires Valid()
      modifies this
      ensures Valid()
      ensures stream == old(stream) + value && yielded == old(yielded) + out
      ensures Framed(out, all, total) == Scan(rs, decode, old(all) + value, old(total))
      ensures rs !in all
      ensures forall y :: y in out ==> HasNonWhiteSpace(decode(y.record))
    {
      var buf := AppendChunk(all, value);
      assert buf == all + value;
      out, all, total := SplitRecords(rs, decode, buf, total);
      ScanYieldsNonWhiteSpace(rs, decode, buf, old(total));
      ScanLeavesNoSeparator(rs, decode, buf, old(total));
      ScanAppend(rs, decode, stream, value, 0);
      stream := stream + value;
      yielded := yielded + out;
    }
  }

  /** Joining the remainder of the buffer with a new chunk, as the reader
      does: a new array of the combined length, the old bytes copied to its
      head and the chunk's bytes after them. Nothing is reordered or lost. */
  method AppendChunk(all: seq<byte>, value: seq<byte>) returns (joined: seq<byte>)
    ensures |joined| == |all| + |value|
    ensures joined[..|all|] == all && joined[|all|..] == value
  {
    var newarr := new byte[|all| + |value|];
    var i := 0;
    while i < |all|
      invariant 0 <= i <= |all|
      invariant forall k :: 0 <= k < i ==> newarr[k] == all[k]
    {
      newarr[i] := all[i];
      i := i + 1;
    }
    var j := 0;
    while j < |value|
      invariant 0 <= j <= |value|
      invariant forall k :: 0 <= k < |all| ==> newarr[k] == all[k]
      invariant forall k :: 0 <= k < j ==> newarr[|all| + k] == value[k]
    {
      newarr[|all| + j] := value[j];
      j := j + 1;
    }
    joined := newarr[..];
  }

  /** The inner loop of the reader over its buffer `all` and counter
      `total`: while the buffer holds a separator, the counter goes up; a
      separator at the head is dropped; otherwise the bytes before the
      separator, less the last one, are decoded, the buffer continues after
      the separator, and the record is yielded, with the counter as its
      progress, when its text is not all whitespace. */
  method SplitRecords(rs: byte, decode: Decoder, all: seq<byte>, total: nat) returns (out: seq<Yield>, rest: seq<byte>, count: nat)
    ensures Framed(out, rest, count) == Scan(rs, decode, all, total)
  {
    rest, count := all, total;
    out := [];
    var idx := IndexOf(rest, rs);
    while idx > -1
      invariant idx == IndexOf(rest, rs)
      invariant Scan(rs, decode, all, total) == Continue(out, Scan(rs, decode, rest, count))
      decreases |rest|
    {
      ghost var out0, rest0, count0 := out, rest, count;
      count := count + 1;
      if idx == 0 {
        rest := rest[1..];
      } else {
        var nextSlice := rest[..idx - 1];
        var nextChunk := decode(nextSlice);
        rest := rest[idx + 1..];
        if HasNonWhiteSpace(nextChunk) {
          out := out + [Yield(nextSlice, count)];
        }
      }
      SplitStep(rs, decode, all, total, out0, rest0, count0, idx, out, rest);
      idx := IndexOf(rest, rs);
    }
    assert out + [] == out;
  }

  /** One turn of the loop of `SplitRecords` keeps its invariant: what the
      turn yields and the buffer it leaves are those of the piece before the
      first separator and of the bytes after it. */
  lemma SplitStep(rs: byte, decode: Decoder, all: seq<byte>, total: nat,
                  out0: seq<Yield>, rest0: seq<byte>, count0: nat, idx: nat,
                  out: seq<Yield>, rest: seq<byte>)
    requires idx == IndexOf(rest0, rs)
    requires Scan(rs, decode, all, total) == Continue(out0, Scan(rs, decode, rest0, count0))
    requires rest == rest0[idx + 1..]
    requires out == if idx == 0 then out0
                    else if HasNonWhiteSpace(decode(rest0[..idx - 1])) then out0 + [Yield(rest0[..idx - 1], count0 + 1)]
                    else out0
    ensures Scan(rs, decode, all, total) == Continue(out, Scan(rs, decode, rest, count0 + 1))
  {
    KeepAt(decode, rest0, idx, count0);
    assert out == out0 + Keep(decode, rest0[..idx], count0);
    ScanStep(rs, decode, out0, rest0, count0);
  }

  /** `jsonSeqReader` run to the end of a stream that delivers `chunks`: the
      values it yields, in order, each with the count the progress callback
      receives just before it, and the bytes it leaves unconsumed. They are
      those of splitting the whole stream in one go, so they depend on the
      bytes of the stream only and not on how it was cut into chunks; what
      that splitting gives is stated by the lemmas of `Framing`. */
  method JsonSeqReader(rs: byte, decode: Decoder, chunks: seq<seq<byte>>) returns (out: seq<Yield>, leftover: seq<byte>)
    ensures FeedAll(rs, decode, chunks).values == out && FeedAll(rs, decode, chunks).rest == leftover
    ensures Frame(rs, decode, Flatten(chunks)).values == out
    ensures Frame(rs, decode, Flatten(chunks)).rest == leftover
  {
    var reader := new Framer(rs, decode);
    out := [];
    var i := 0;
    while i < |chunks|
      invariant 0 <= i <= |chunks|
      invariant reader.rs == rs && reader.decode == decode
      invariant reader.Valid()
      invariant reader.stream == Flatten(chunks[..i]) && reader.yielded == out
    {
      var values := reader.Feed(chunks[i]);
      out := out + values;
      assert chunks[..i + 1][..i] == chunks[..i];
      i := i + 1;
    }
    assert chunks[..i] == chunks;
    leftover := reader.all;
    FeedAllIsFrame(rs, decode, chunks);
  }

  /** `jsonSeqReader` called without its `RS` argument, which then defaults
      to the ASCII Record Separator 0x1E. */
  method JsonSeqReaderDefault(decode: Decoder, chunks: seq<seq<byte>>) returns (out: seq<Yield>, leftover: seq<byte>)
    ensures Frame(RecordSeparator, decode, Flatten(chunks)).values == out
    ensures Frame(RecordSeparator, decode, Flatten(chunks)).rest == leftover
    ensures RecordSeparator !in leftover
  {
    out, leftover := JsonSeqReader(RecordSeparator, decode, chunks);
  }
}
