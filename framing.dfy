/** The splitting rule of the RFC 7464 (JSON Text Sequences) reader, as pure
    functions over the byte buffer it keeps between reads, and what is proved
    about that rule: what is left in the buffer, what is handed out, in which
    order, with which progress count, and that the way the stream was cut into
    chunks does not matter. */
module Framing {
  import opened Whitespace

  /** An element of a `Uint8Array`. */
  newtype byte = b: int | 0 <= b < 256

  /** The ASCII Record Separator, the reader's default separator byte. */
  const RecordSeparator: byte := 0x1E

  /** The UTF-8 text decoder the reader applies to each candidate record. */
  type Decoder = seq<byte> -> string

  /** One value handed to the caller: the record's bytes (which the reader
      decodes and parses) and the counter value passed to the progress
      callback just before the value is yielded. */
  datatype Yield = Yield(record: seq<byte>, progress: nat)

  /** The outcome of splitting a buffer: the values yielded, the bytes left
      in the buffer, and the counter afterwards. */
  datatype Framed = Framed(values: seq<Yield>, rest: seq<byte>, total: nat)

  /** `Uint8Array.prototype.indexOf`: a position of `b` in `s`, or -1; that
      it is the first one, and -1 only when there is none, is
      `IndexOfFirst`. */
  function IndexOf(s: seq<byte>, b: byte): (r: int)
    ensures -1 <= r < |s|
    ensures r >= 0 ==> s[r] == b
  {
    IndexFrom(s, b, 0)
  }

  /** A position at or after `from` holding `b`, or -1. */
  function IndexFrom(s: seq<byte>, b: byte, from: nat): (r: int)
    requires from <= |s|
    ensures -1 <= r < |s|
    ensures r >= 0 ==> from <= r && s[r] == b
    decreases |s| - from
  {
    if from == |s| then -1
    else if s[from] == b then from
    else IndexFrom(s, b, from + 1)
  }

  /** `IndexFrom` finds the first `b` at or after `from`, and gives -1 only
      when there is none. */
  lemma {:induction false} IndexFromFirst(s: seq<byte>, b: byte, from: nat)
    requires from <= |s|
    ensures var r := IndexFrom(s, b, from);
      && (r < 0 ==> forall k :: from <= k < |s| ==> s[k] != b)
      && (r >= 0 ==> forall k :: from <= k < r ==> s[k] != b)
    decreases |s| - from
  {
    if from < |s| && s[from] != b {
      IndexFromFirst(s, b, from + 1);
    }
  }

  /** `IndexOf` gives -1 exactly when `b` is absent, and otherwise the
      position of its first occurrence. */
  lemma IndexOfFirst(s: seq<byte>, b: byte)
    ensures IndexOf(s, b) < 0 <==> b !in s
    ensures IndexOf(s, b) >= 0 ==> b !in s[..IndexOf(s, b)]
  {
    IndexFromFirst(s, b, 0);
  }

  /** The separator-splitting loop: while the buffer holds a separator, the
      counter goes up by one, the piece before the first separator is offered
      to `Keep` and the buffer continues after the separator. Each value
      yielded uses up a separator, so the counter grows by at least the
      number of values. */
  function Scan(rs: byte, decode: Decoder, buf: seq<byte>, total: nat): (r: Framed)
    ensures total + |r.values| <= r.total
    decreases |buf|
  {
    var idx := IndexOf(buf, rs);
    if idx < 0 then Framed([], buf, total)
    else
      var next := Scan(rs, decode, buf[idx + 1..], total + 1);
      Framed(Keep(decode, buf[..idx], total) + next.values, next.rest, next.total)
  }

  /** What the piece before a separator gives, `total` being the counter
      before that separator is consumed. A separator at the head of the
      buffer (a leading or repeated one) gives an empty piece and nothing.
      Otherwise the candidate record is the piece WITHOUT its last byte, and
      it is yielded, with progress `total + 1`, when its decoded text has a
      non-whitespace character. */
  function Keep(decode: Decoder, piece: seq<byte>, total: nat): seq<Yield> {
    if |piece| > 0 && HasNonWhiteSpace(decode(piece[..|piece| - 1])) then [Yield(piece[..|piece| - 1], total + 1)]
    else []
  }

  /** The piece before a separator at `idx`: nothing when `idx` is 0, and
      otherwise the bytes `0 .. idx - 1`, when their text is not all
      whitespace. */
  lemma KeepAt(decode: Decoder, buf: seq<byte>, idx: nat, total: nat)
    requires idx < |buf|
    ensures Keep(decode, buf[..idx], total)
      == if idx == 0 then []
         else if HasNonWhiteSpace(decode(buf[..idx - 1])) then [Yield(buf[..idx - 1], total + 1)]
         else []
  {
    if idx > 0 {
      assert buf[..idx][..idx - 1] == buf[..idx - 1];
    }
  }

  /** A whole stream split from a fresh reader: empty buffer, counter 0.
      What is left holds no separator, and bytes left the buffer at its
      head only. */
  function Frame(rs: byte, decode: Decoder, stream: seq<byte>): (r: Framed)
    ensures rs !in r.rest && IsSuffix(r.rest, stream)
  {
    ScanLeavesNoSeparator(rs, decode, stream, 0);
    ScanKeepsTail(rs, decode, stream, 0);
    Scan(rs, decode, stream, 0)
  }

  /** Appending a chunk to the buffer left by `f` and splitting again. */
  function Resume(rs: byte, decode: Decoder, f: Framed, chunk: seq<byte>): Framed {
    var g := Scan(rs, decode, f.rest + chunk, f.total);
    Framed(f.values + g.values, g.rest, g.total)
  }

  /** The chunks of a stream, joined in order. */
  function Flatten(chunks: seq<seq<byte>>): seq<byte> {
    if chunks == [] then [] else Flatten(chunks[..|chunks| - 1]) + chunks[|chunks| - 1]
  }

  /** `f` split further, after `out` has already been yielded. */
  function Continue(out: seq<Yield>, f: Framed): Framed {
    Framed(out + f.values, f.rest, f.total)
  }

  /** One turn of the splitting loop: with a separator in the buffer, the
      values still to come are those of the piece before it, then those of
      the buffer after it. */
  lemma ScanStep(rs: byte, decode: Decoder, out: seq<Yield>, buf: seq<byte>, total: nat)
    requires IndexOf(buf, rs) >= 0
    ensures var idx := IndexOf(buf, rs);
      Continue(out, Scan(rs, decode, buf, total))
        == Continue(out + Keep(decode, buf[..idx], total), Scan(rs, decode, buf[idx + 1..], total + 1))
  {
  }

  /** A separator at the head of the buffer (a leading one, or one right
      after another) costs one count, removes exactly that byte and yields
      nothing. */
  lemma ScanDropsLeadingSeparator(rs: byte, decode: Decoder, buf: seq<byte>, total: nat)
    requires |buf| > 0 && buf[0] == rs
    ensures Scan(rs, decode, buf, total) == Scan(rs, decode, buf[1..], total + 1)
  {
  }

  /** A buffer without a separator is left as it is: nothing is yielded and
      the counter does not move. */
  lemma ScanWithoutSeparator(rs: byte, decode: Decoder, buf: seq<byte>, total: nat)
    requires rs !in buf
    ensures Scan(rs, decode, buf, total) == Framed([], buf, total)
  {
    IndexOfFirst(buf, rs);
  }

  /** The first separator at a position `idx > 0`: the candidate record is
      the bytes `0 .. idx - 1` (the byte just before the separator is not
      part of it), it is yielded with progress `total + 1` exactly when its
      text has a non-whitespace character, and splitting goes on from the
      byte after the separator, so no byte before it is looked at again. */
  lemma ScanAtFirstSeparator(rs: byte, decode: Decoder, buf: seq<byte>, idx: nat, total: nat)
    requires 0 < idx < |buf| && buf[idx] == rs && rs !in buf[..idx]
    ensures var next := Scan(rs, decode, buf[idx + 1..], total + 1);
      var record := buf[..idx - 1];
      Scan(rs, decode, buf, total)
        == Framed((if HasNonWhiteSpace(decode(record)) then [Yield(record, total + 1)] else []) + next.values,
                  next.rest, next.total)
  {
    assert forall k :: 0 <= k < idx ==> buf[k] in buf[..idx];
    IndexOfIs(buf, rs, idx);
    assert buf[..idx][..idx - 1] == buf[..idx - 1];
  }

  // ---------------------------------------------------------------------
  // What is left in the buffer

  /** After the splitting loop exits, no separator remains in the buffer. */
  lemma {:induction false} ScanLeavesNoSeparator(rs: byte, decode: Decoder, buf: seq<byte>, total: nat)
    ensures rs !in Scan(rs, decode, buf, total).rest
    decreases |buf|
  {
    var idx := IndexOf(buf, rs);
    if idx >= 0 {
      ScanLeavesNoSeparator(rs, decode, buf[idx + 1..], total + 1);
    } else {
      IndexOfFirst(buf, rs);
    }
  }

  /** `a` is what is left of `b` once some bytes are taken from its head. */
  ghost predicate IsSuffix(a: seq<byte>, b: seq<byte>) {
    |a| <= |b| && a == b[|b| - |a|..]
  }

  /** A suffix of a suffix is a suffix. */
  lemma SuffixOfSuffix(a: seq<byte>, b: seq<byte>, c: seq<byte>)
    requires IsSuffix(a, b) && IsSuffix(b, c)
    ensures IsSuffix(a, c)
  {
  }

  /** Bytes leave the buffer only at its head: what is left is a suffix of
      the buffer. */
  lemma {:induction false} ScanKeepsTail(rs: byte, decode: Decoder, buf: seq<byte>, total: nat)
    ensures IsSuffix(Scan(rs, decode, buf, total).rest, buf)
    decreases |buf|
  {
    var idx := IndexOf(buf, rs);
    if idx >= 0 {
      var tail := buf[idx + 1..];
      ScanKeepsTail(rs, decode, tail, total + 1);
      assert IsSuffix(tail, buf);
      SuffixOfSuffix(Scan(rs, decode, tail, total + 1).rest, tail, buf);
    } else {
      assert buf[0..] == buf;
    }
  }

  /** When the buffer holds a separator, what is left is exactly what follows
      one, so (with `ScanLeavesNoSeparator`) what follows the last one: bytes
      after the last separator are never handed out but stay, in order, at the
      head of the buffer. */
  lemma {:induction false} ScanRestFollowsSeparator(rs: byte, decode: Decoder, buf: seq<byte>, total: nat)
    requires rs in buf
    ensures IsSuffix([rs] + Scan(rs, decode, buf, total).rest, buf)
    decreases |buf|
  {
    IndexOfFirst(buf, rs);
    var idx := IndexOf(buf, rs);
    var tail := buf[idx + 1..];
    var rest := Scan(rs, decode, tail, total + 1).rest;
    assert Scan(rs, decode, buf, total).rest == rest;
    if rs in tail {
      ScanRestFollowsSeparator(rs, decode, tail, total + 1);
      assert IsSuffix(tail, buf);
      SuffixOfSuffix([rs] + rest, tail, buf);
    } else {
      IndexOfFirst(tail, rs);
      assert rest == tail;
      assert buf[idx..] == [rs] + tail;
    }
  }

  // ---------------------------------------------------------------------
  // The counter and what is yielded

  /** The counter goes up by exactly one per separator consumed, whether the
      record it ends is yielded, empty or whitespace. */
  lemma {:induction false} ScanCountsSeparators(rs: byte, decode: Decoder, buf: seq<byte>, total: nat)
    ensures Scan(rs, decode, buf, total).total == total + multiset(buf)[rs]
    decreases |buf|
  {
    var idx := IndexOf(buf, rs);
    IndexOfFirst(buf, rs);
    if idx >= 0 {
      var tail := buf[idx + 1..];
      ScanCountsSeparators(rs, decode, tail, total + 1);
      CountAtFirst(buf, idx, rs);
    } else {
      assert rs !in multiset(buf);
    }
  }

  /** Cutting a sequence at the first occurrence of `x` removes one `x`. */
  lemma CountAtFirst(s: seq<byte>, idx: nat, x: byte)
    requires idx < |s| && s[idx] == x && x !in s[..idx]
    ensures multiset(s)[x] == 1 + multiset(s[idx + 1..])[x]
  {
    assert s == s[..idx] + [x] + s[idx + 1..];
    assert multiset(s) == multiset(s[..idx]) + multiset([x]) + multiset(s[idx + 1..]);
    assert x !in multiset(s[..idx]);
    assert multiset(s[..idx])[x] == 0;
    assert multiset([x])[x] == 1;
  }

  /** Every yielded record decodes to a text with a non-whitespace character. */
  lemma {:induction false} ScanYieldsNonWhiteSpace(rs: byte, decode: Decoder, buf: seq<byte>, total: nat)
    ensures forall y :: y in Scan(rs, decode, buf, total).values ==> HasNonWhiteSpace(decode(y.record))
    decreases |buf|
  {
    var idx := IndexOf(buf, rs);
    if idx >= 0 {
      var next := Scan(rs, decode, buf[idx + 1..], total + 1);
      ScanYieldsNonWhiteSpace(rs, decode, buf[idx + 1..], total + 1);
      var head := Keep(decode, buf[..idx], total);
      assert forall y :: y in head ==> HasNonWhiteSpace(decode(y.record));
      assert Scan(rs, decode, buf, total).values == head + next.values;
    }
  }

  /** The i-th progress value of `vs` (from 0) lies in `lo + i + 1 .. hi`. */
  ghost predicate ProgressWithin(vs: seq<Yield>, lo: nat, hi: nat) {
    forall i :: 0 <= i < |vs| ==> lo + i + 1 <= vs[i].progress <= hi
  }

  /** A value with progress `lo + 1` in front of values whose bounds start
      one higher. */
  lemma ProgressWithinCons(head: seq<Yield>, vs: seq<Yield>, lo: nat, hi: nat)
    requires |head| <= 1 && (head != [] ==> head[0].progress == lo + 1) && lo + 1 <= hi
    requires ProgressWithin(vs, lo + 1, hi)
    ensures ProgressWithin(head + vs, lo, hi)
  {
  }

  /** Every progress value handed out lies above the counter at the start
      and at most at the counter at the end; the i-th one (from 0) is at
      least the start counter plus i + 1, so from a fresh reader it is at
      least the number of values yielded so far. */
  lemma {:induction false} ScanProgressBounds(rs: byte, decode: Decoder, buf: seq<byte>, total: nat)
    ensures var f := Scan(rs, decode, buf, total);
      ProgressWithin(f.values, total, f.total)
    decreases |buf|
  {
    var idx := IndexOf(buf, rs);
    if idx >= 0 {
      var next := Scan(rs, decode, buf[idx + 1..], total + 1);
      ScanProgressBounds(rs, decode, buf[idx + 1..], total + 1);
      ProgressWithinCons(Keep(decode, buf[..idx], total), next.values, total, next.total);
    }
  }

  /** The progress values of `vs` are strictly increasing. */
  ghost predicate Increasing(vs: seq<Yield>) {
    forall i, j :: 0 <= i < j < |vs| ==> vs[i].progress < vs[j].progress
  }

  /** A value in front of increasing values that all lie above it. */
  lemma IncreasingCons(head: seq<Yield>, vs: seq<Yield>, lo: nat, hi: nat)
    requires |head| <= 1 && (head != [] ==> head[0].progress == lo + 1)
    requires Increasing(vs) && ProgressWithin(vs, lo + 1, hi)
    ensures Increasing(head + vs)
  {
  }

  /** The progress values handed out are strictly increasing. */
  lemma {:induction false} ScanProgressIncreasing(rs: byte, decode: Decoder, buf: seq<byte>, total: nat)
    ensures Increasing(Scan(rs, decode, buf, total).values)
    decreases |buf|
  {
    var idx := IndexOf(buf, rs);
    if idx >= 0 {
      var next := Scan(rs, decode, buf[idx + 1..], total + 1);
      ScanProgressIncreasing(rs, decode, buf[idx + 1..], total + 1);
      ScanProgressBounds(rs, decode, buf[idx + 1..], total + 1);
      IncreasingCons(Keep(decode, buf[..idx], total), next.values, total, next.total);
    }
  }

  /** With a decoder that turns no bytes into no text, as UTF-8 decoding
      does, no yielded record is empty: the record of a separator at
      position 1 (a single byte before it) is never handed out. */
  lemma ScanYieldsNoEmptyRecord(rs: byte, decode: Decoder, buf: seq<byte>, total: nat)
    requires decode([]) == []
    ensures forall y :: y in Scan(rs, decode, buf, total).values ==> y.record != []
  {
  }

  // ---------------------------------------------------------------------
  // Chunk boundaries do not matter

  /** The first separator of `a + b` is that of `a` when `a` has one. */
  lemma IndexOfAppend(a: seq<byte>, b: seq<byte>, x: byte)
    requires x in a
    ensures IndexOf(a + b, x) == IndexOf(a, x)
  {
    IndexFromFirst(a, x, 0);
    var i := IndexOf(a, x);
    assert forall k :: 0 <= k < i ==> (a + b)[k] == a[k];
    IndexOfIs(a + b, x, i);
  }

  /** Splitting `a + b` is splitting `a`, then appending `b` to what `a`
      left behind and splitting that: the values of the two steps follow one
      another and nothing else of `a` is looked at again. */
  lemma {:induction false} ScanAppend(rs: byte, decode: Decoder, a: seq<byte>, b: seq<byte>, total: nat)
    ensures Scan(rs, decode, a + b, total) == Resume(rs, decode, Scan(rs, decode, a, total), b)
    decreases |a|
  {
    var idx := IndexOf(a, rs);
    if idx < 0 {
      assert Scan(rs, decode, a, total) == Framed([], a, total);
      assert [] + Scan(rs, decode, a + b, total).values == Scan(rs, decode, a + b, total).values;
    } else {
      IndexOfAppend(a, b, rs);
      assert (a + b)[idx + 1..] == a[idx + 1..] + b;
      assert (a + b)[..idx] == a[..idx];
      ScanAppend(rs, decode, a[idx + 1..], b, total + 1);
      var f := Scan(rs, decode, a[idx + 1..], total + 1);
      var g := Scan(rs, decode, f.rest + b, f.total);
      YieldsAssoc(Keep(decode, a[..idx], total), f.values, g.values);
    }
  }

  /** Concatenation of yields is associative. Dafny knows this; stated
      apart, it keeps the proofs that use it small. */
  lemma YieldsAssoc(x: seq<Yield>, y: seq<Yield>, z: seq<Yield>)
    ensures x + (y + z) == (x + y) + z
  {
  }

  /** The same for a stream cut at any position. */
  lemma FrameSplitAnywhere(rs: byte, decode: Decoder, stream: seq<byte>, k: nat)
    requires k <= |stream|
    ensures Frame(rs, decode, stream) == Resume(rs, decode, Frame(rs, decode, stream[..k]), stream[k..])
  {
    assert stream == stream[..k] + stream[k..];
    ScanAppend(rs, decode, stream[..k], stream[k..], 0);
  }

  /** Feeding chunks one at a time, in order, from the reader's initial state. */
  function FeedAll(rs: byte, decode: Decoder, chunks: seq<seq<byte>>): Framed {
    if chunks == [] then Framed([], [], 0)
    else Resume(rs, decode, FeedAll(rs, decode, chunks[..|chunks| - 1]), chunks[|chunks| - 1])
  }

  /** Feeding the chunks one by one yields exactly what feeding their
      concatenation as one chunk yields, and leaves the same buffer and
      counter, wherever the chunk boundaries fell. */
  lemma {:induction false} FeedAllIsFrame(rs: byte, decode: Decoder, chunks: seq<seq<byte>>)
    ensures FeedAll(rs, decode, chunks) == Frame(rs, decode, Flatten(chunks))
    decreases |chunks|
  {
    if chunks == [] {
      assert Frame(rs, decode, []) == Framed([], [], 0);
    } else {
      var init := chunks[..|chunks| - 1];
      FeedAllIsFrame(rs, decode, init);
      ScanAppend(rs, decode, Flatten(init), chunks[|chunks| - 1], 0);
    }
  }

  // ---------------------------------------------------------------------
  // An independent description: split on every separator, then select

  /** The pieces of `s` between separators, as `String.prototype.split`
      would give them: one more piece than there are separators. */
  function Fields(rs: byte, s: seq<byte>): (r: seq<seq<byte>>)
    ensures |r| >= 1
    decreases |s|
  {
    var idx := IndexOf(s, rs);
    if idx < 0 then [s] else [s[..idx]] + Fields(rs, s[idx + 1..])
  }

  /** Pieces joined back with one separator between neighbours. */
  function Join(rs: byte, fs: seq<seq<byte>>): seq<byte>
    requires |fs| >= 1
  {
    if |fs| == 1 then fs[0] else fs[0] + [rs] + Join(rs, fs[1..])
  }

  /** Joining a piece in front of at least one other. */
  lemma JoinCons(rs: byte, x: seq<byte>, ts: seq<seq<byte>>)
    requires |ts| >= 1
    ensures Join(rs, [x] + ts) == x + [rs] + Join(rs, ts)
  {
  }

  /** `Fields` is a correct split: joining the pieces gives the stream back... */
  lemma {:induction false} FieldsJoin(rs: byte, s: seq<byte>)
    ensures Join(rs, Fields(rs, s)) == s
    decreases |s|
  {
    var idx := IndexOf(s, rs);
    if idx >= 0 {
      var tail := s[idx + 1..];
      var ts := Fields(rs, tail);
      assert Fields(rs, s) == [s[..idx]] + ts;
      FieldsJoin(rs, tail);
      JoinCons(rs, s[..idx], ts);
      CutAt(s, idx);
    } else {
      assert Fields(rs, s) == [s];
    }
  }

  /** A sequence is what comes before, at and after a position. Dafny knows
      this; stated apart, it keeps the proofs that use it small. */
  lemma CutAt(s: seq<byte>, i: nat)
    requires i < |s|
    ensures s == s[..i] + [s[i]] + s[i + 1..]
  {
  }

  /** ... and no piece holds a separator. */
  lemma {:induction false} FieldsHaveNoSeparator(rs: byte, s: seq<byte>)
    ensures forall i :: 0 <= i < |Fields(rs, s)| ==> rs !in Fields(rs, s)[i]
    decreases |s|
  {
    var idx := IndexOf(s, rs);
    IndexOfFirst(s, rs);
    if idx >= 0 {
      var tail := s[idx + 1..];
      FieldsHaveNoSeparator(rs, tail);
      var fs := Fields(rs, s);
      assert fs == [s[..idx]] + Fields(rs, tail);
      assert rs !in s[..idx];
    }
  }

  /** The first separator is where `IndexOf` says. */
  lemma IndexOfIs(s: seq<byte>, b: byte, i: nat)
    requires i < |s| && s[i] == b
    requires forall k :: 0 <= k < i ==> s[k] != b
    ensures IndexOf(s, b) == i
  {
    IndexFromFirst(s, b, 0);
  }

  /** And it is the only such split. */
  lemma {:induction false} FieldsUnique(rs: byte, fs: seq<seq<byte>>)
    requires |fs| >= 1
    requires forall i :: 0 <= i < |fs| ==> rs !in fs[i]
    ensures Fields(rs, Join(rs, fs)) == fs
    decreases |fs|
  {
    if |fs| == 1 {
      assert Join(rs, fs) == fs[0];
      IndexOfFirst(fs[0], rs);
    } else {
      var head, tail := fs[0], Join(rs, fs[1..]);
      var s := head + [rs] + tail;
      assert Join(rs, fs) == s;
      assert rs !in head;
      IndexOfIs(s, rs, |head|);
      assert s[..|head|] == head && s[|head| + 1..] == tail;
      FieldsUnique(rs, fs[1..]);
      assert fs == [head] + fs[1..];
    }
  }

  /** The values that the separator-terminated pieces `fs` give, in order. */
  function Select(decode: Decoder, fs: seq<seq<byte>>, total: nat): seq<Yield>
    decreases |fs|
  {
    if fs == [] then [] else Keep(decode, fs[0], total) + Select(decode, fs[1..], total + 1)
  }

  /** The splitting loop, described without it: the buffer is cut at every
      separator; each piece that a separator terminates is a candidate record
      with its last byte removed, selected as `Keep` says and in stream
      order; the unterminated last piece stays in the buffer; and the counter
      grows by the number of separators. */
  lemma {:induction false} ScanIsSelectOfFields(rs: byte, decode: Decoder, buf: seq<byte>, total: nat)
    ensures var fs := Fields(rs, buf);
      Scan(rs, decode, buf, total) == Framed(Select(decode, fs[..|fs| - 1], total), fs[|fs| - 1], total + |fs| - 1)
    decreases |buf|
  {
    var idx := IndexOf(buf, rs);
    if idx >= 0 {
      var tail := buf[idx + 1..];
      ScanIsSelectOfFields(rs, decode, tail, total + 1);
      var ts := Fields(rs, tail);
      assert Fields(rs, buf) == [buf[..idx]] + ts;
      SelectCons(decode, buf[..idx], ts, total);
    } else {
      assert Fields(rs, buf) == [buf];
    }
  }

  /** Selecting from the terminated pieces of `[p] + ts` starts with `p`. */
  lemma SelectCons(decode: Decoder, p: seq<byte>, ts: seq<seq<byte>>, total: nat)
    requires |ts| >= 1
    ensures var fs := [p] + ts;
      Select(decode, fs[..|fs| - 1], total) == Keep(decode, p, total) + Select(decode, ts[..|ts| - 1], total + 1)
  {
    var fs := [p] + ts;
    assert fs[..|fs| - 1] == [p] + ts[..|ts| - 1];
    assert fs[..|fs| - 1][1..] == ts[..|ts| - 1];
  }

  // ---------------------------------------------------------------------
  // Degenerate streams

  /** A stream of separators alone yields nothing and leaves nothing behind. */
  lemma {:induction false} OnlySeparatorsYieldNothing(rs: byte, decode: Decoder, buf: seq<byte>, total: nat)
    requires forall i :: 0 <= i < |buf| ==> buf[i] == rs
    ensures Scan(rs, decode, buf, total) == Framed([], [], total + |buf|)
    decreases |buf|
  {
    if buf != [] {
      ScanDropsLeadingSeparator(rs, decode, buf, total);
      OnlySeparatorsYieldNothing(rs, decode, buf[1..], total + 1);
    } else {
      IndexOfFirst(buf, rs);
    }
  }
}
