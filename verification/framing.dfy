/**
 * The repository's own transport framing: every payload travels as a two-byte
 * length prefix followed by the payload bytes. This is not the four-byte
 * length prefix of the peer-protocol section of BEP 3.
 *
 * The prefix codec (TwoByteMessageLength) is not part of this model; its two
 * directions are carried as function values, and properties that need the
 * codec to behave are stated under the predicates `Faithful` and `Canonical`.
 */
module Framing {
  import opened Common

  /** The two directions of the unseen two-byte length codec. */
  datatype LengthCodec = LengthCodec(toBytes: int -> (byte, byte), toLength: (byte, byte) -> int)

  /** Width of the length prefix. */
  const PREFIX_LENGTH: nat := 2

  /** Largest payload length that survives the writer's `(short)` cast unchanged. */
  const MAX_SHORT: nat := 32767

  /** The prefix written for a payload of length `n`. */
  function Prefix(c: LengthCodec, n: int): (p: Bytes)
    ensures |p| == PREFIX_LENGTH
  {
    [c.toBytes(n).0, c.toBytes(n).1]
  }

  /** The length declared by the first two bytes of `s`. */
  function DeclaredLength(c: LengthCodec, s: Bytes): int
    requires |s| >= PREFIX_LENGTH
  {
    c.toLength(s[0], s[1])
  }

  /** One frame as the writer puts it on the wire. */
  function Encode(c: LengthCodec, payload: Bytes): (f: Bytes)
    ensures |f| == PREFIX_LENGTH + |payload|
    ensures f[PREFIX_LENGTH..] == payload
  {
    Prefix(c, |payload|) + payload
  }

  /** Frames written back to back. */
  function EncodeAll(c: LengthCodec, payloads: seq<Bytes>): Bytes
  {
    if payloads == [] then [] else Encode(c, payloads[0]) + EncodeAll(c, payloads[1..])
  }

  /** Writing one more frame extends the written bytes by that frame. */
  lemma {:induction false} EncodeAllSnoc(c: LengthCodec, payloads: seq<Bytes>, p: Bytes)
    ensures EncodeAll(c, payloads + [p]) == EncodeAll(c, payloads) + Encode(c, p)
    decreases |payloads|
  {
    if payloads == [] {
      assert payloads + [p] == [p];
    } else {
      assert (payloads + [p])[1..] == payloads[1..] + [p];
      EncodeAllSnoc(c, payloads[1..], p);
    }
  }

  /** The codec reads back every length the writer can produce. */
  predicate Faithful(c: LengthCodec)
  {
    forall n :: 0 <= n <= MAX_SHORT ==> c.toLength(c.toBytes(n).0, c.toBytes(n).1) == n
  }

  /** Every pair of prefix bytes is what the writer produces for the length it declares. */
  predicate Canonical(c: LengthCodec)
  {
    forall a: byte, b: byte :: c.toBytes(c.toLength(a, b)) == (a, b)
  }

  /** All payloads are short enough for the writer's `(short)` cast. */
  predicate AllShort(payloads: seq<Bytes>)
  {
    forall i :: 0 <= i < |payloads| ==> |payloads[i]| <= MAX_SHORT
  }

  // The three mutually exclusive shapes of the front of a buffered stream.

  /** Not enough bytes yet for the prefix, or for the payload it declares. */
  predicate Pending(c: LengthCodec, s: Bytes)
  {
    |s| < PREFIX_LENGTH || |s| - PREFIX_LENGTH < DeclaredLength(c, s)
  }

  /** The prefix declares a negative length. */
  predicate Malformed(c: LengthCodec, s: Bytes)
  {
    |s| >= PREFIX_LENGTH && DeclaredLength(c, s) < 0
  }

  /** A whole frame sits at the front. */
  predicate Complete(c: LengthCodec, s: Bytes)
  {
    |s| >= PREFIX_LENGTH && 0 <= DeclaredLength(c, s) <= |s| - PREFIX_LENGTH
  }

  lemma ShapesPartition(c: LengthCodec, s: Bytes)
    ensures Pending(c, s) || Malformed(c, s) || Complete(c, s)
    ensures !(Pending(c, s) && Malformed(c, s))
    ensures !(Pending(c, s) && Complete(c, s))
    ensures !(Malformed(c, s) && Complete(c, s))
  {
  }

  /**
   * Reference grammar of a buffered stream: `s` is the frames `frames`, cut one
   * after the other off the front, followed by a remainder `rest` that holds no
   * whole frame at its front.
   */
  predicate Parses(c: LengthCodec, s: Bytes, frames: seq<Bytes>, rest: Bytes)
    decreases |frames|
  {
    if frames == [] then
      s == rest && !Complete(c, s)
    else
      && |s| >= PREFIX_LENGTH + |frames[0]|
      && DeclaredLength(c, s) == |frames[0]|
      && s[PREFIX_LENGTH..PREFIX_LENGTH + |frames[0]|] == frames[0]
      && Parses(c, s[PREFIX_LENGTH + |frames[0]|..], frames[1..], rest)
  }

  /** A stream parses in at most one way. */
  lemma {:induction false} ParsesIsUnique(c: LengthCodec, s: Bytes, f1: seq<Bytes>, r1: Bytes, f2: seq<Bytes>, r2: Bytes)
    requires Parses(c, s, f1, r1) && Parses(c, s, f2, r2)
    ensures f1 == f2 && r1 == r2
    decreases |f1|
  {
    if f1 == [] {
      if f2 != [] {
        assert Complete(c, s);
      }
    } else if f2 == [] {
      assert Complete(c, s);
    } else {
      assert f1[0] == f2[0];
      ParsesIsUnique(c, s[PREFIX_LENGTH + |f1[0]|..], f1[1..], r1, f2[1..], r2);
      assert f1 == [f1[0]] + f1[1..];
      assert f2 == [f2[0]] + f2[1..];
    }
  }

  /** The remainder of a parse is a suffix of the stream. */
  lemma {:induction false} ParsesRestIsSuffix(c: LengthCodec, s: Bytes, frames: seq<Bytes>, rest: Bytes)
    requires Parses(c, s, frames, rest)
    ensures |rest| <= |s| && s[|s| - |rest|..] == rest
    decreases |frames|
  {
    if frames != [] {
      ParsesRestIsSuffix(c, s[PREFIX_LENGTH + |frames[0]|..], frames[1..], rest);
    }
  }

  /**
   * Decoding reassembles: with a canonical codec, writing the parsed frames
   * back with their prefixes and appending the remainder gives the stream.
   */
  lemma {:induction false} ParsesReassembles(c: LengthCodec, s: Bytes, frames: seq<Bytes>, rest: Bytes)
    requires Canonical(c)
    requires Parses(c, s, frames, rest)
    ensures s == EncodeAll(c, frames) + rest
    decreases |frames|
  {
    if frames != [] {
      var f := frames[0];
      var tail := s[PREFIX_LENGTH + |f|..];
      ParsesReassembles(c, tail, frames[1..], rest);
      FrontReassembles(c, s, f);
      calc {
        s;
        Encode(c, f) + tail;
        Encode(c, f) + (EncodeAll(c, frames[1..]) + rest);
        (Encode(c, f) + EncodeAll(c, frames[1..])) + rest;
        EncodeAll(c, frames) + rest;
      }
    }
  }

  /** With a canonical codec, a stream whose first frame is `f` is that frame's encoding followed by the remainder. */
  lemma FrontReassembles(c: LengthCodec, s: Bytes, f: Bytes)
    requires Canonical(c)
    requires |s| >= PREFIX_LENGTH + |f| && DeclaredLength(c, s) == |f| && s[PREFIX_LENGTH..PREFIX_LENGTH + |f|] == f
    ensures s == Encode(c, f) + s[PREFIX_LENGTH + |f|..]
  {
    assert c.toBytes(c.toLength(s[0], s[1])) == (s[0], s[1]);
    assert Prefix(c, |f|) == s[..PREFIX_LENGTH];
    assert s == s[..PREFIX_LENGTH] + s[PREFIX_LENGTH..PREFIX_LENGTH + |f|] + s[PREFIX_LENGTH + |f|..];
  }

  /**
   * Encoding round trip: frames written back to back, followed by any bytes
   * that do not yet form a frame, parse back to exactly those frames in order.
   */
  lemma {:induction false} EncodeAllParses(c: LengthCodec, payloads: seq<Bytes>, rest: Bytes)
    requires Faithful(c)
    requires AllShort(payloads)
    requires !Complete(c, rest)
    ensures Parses(c, EncodeAll(c, payloads) + rest, payloads, rest)
    decreases |payloads|
  {
    if payloads != [] {
      var p := payloads[0];
      var s := EncodeAll(c, payloads) + rest;
      var tail := EncodeAll(c, payloads[1..]) + rest;
      assert s == Prefix(c, |p|) + p + tail;
      assert c.toLength(c.toBytes(|p|).0, c.toBytes(|p|).1) == |p|;
      assert DeclaredLength(c, s) == |p|;
      assert s[PREFIX_LENGTH..PREFIX_LENGTH + |p|] == p;
      assert s[PREFIX_LENGTH + |p|..] == tail;
      assert AllShort(payloads[1..]) by {
        forall i | 0 <= i < |payloads[1..]| ensures |payloads[1..][i]| <= MAX_SHORT {
          assert payloads[1..][i] == payloads[i + 1];
        }
      }
      EncodeAllParses(c, payloads[1..], rest);
    }
  }

  /**
   * Parses compose: parsing a stream, then parsing its remainder extended by
   * more bytes, parses the whole extended stream.
   */
  lemma {:induction false} ParsesExtend(c: LengthCodec, s: Bytes, fs: seq<Bytes>, r: Bytes, t: Bytes, gs: seq<Bytes>, r2: Bytes)
    requires Parses(c, s, fs, r)
    requires Parses(c, r + t, gs, r2)
    ensures Parses(c, s + t, fs + gs, r2)
    decreases |fs|
  {
    if fs == [] {
      assert fs + gs == gs;
    } else {
      var f := fs[0];
      var tail := s[PREFIX_LENGTH + |f|..];
      ParsesExtend(c, tail, fs[1..], r, t, gs, r2);
      assert (s + t)[PREFIX_LENGTH + |f|..] == tail + t;
      assert (s + t)[PREFIX_LENGTH..PREFIX_LENGTH + |f|] == f;
      assert (fs + gs)[0] == f;
      assert (fs + gs)[1..] == fs[1..] + gs;
    }
  }

  /** The two-byte big-endian codec the wire format describes. */
  function BigEndian(): LengthCodec
  {
    LengthCodec(n => ((n / 256) % 256, n % 256), (a, b) => a * 256 + b)
  }

  /** Splitting a joined pair of bytes gives the pair back. */
  lemma SplitJoin(a: byte, b: byte)
    ensures ((a * 256 + b) / 256) % 256 == a && (a * 256 + b) % 256 == b
  {
    var n := a * 256 + b;
    var q, r := n / 256, n % 256;
    assert n == 256 * q + r && 0 <= r < 256;
    assert 256 * (q - a) == b - r;
    assert q == a;
  }

  /** Joining the split bytes of a short length gives the length back. */
  lemma JoinSplit(n: int)
    requires 0 <= n <= MAX_SHORT
    ensures ((n / 256) % 256) * 256 + n % 256 == n
  {
    assert n / 256 < 256;
  }

  /** The big-endian codec meets both requirements, so they can be met. */
  lemma BigEndianIsFaithfulAndCanonical()
    ensures Faithful(BigEndian()) && Canonical(BigEndian())
  {
    var c := BigEndian();
    forall n | 0 <= n <= MAX_SHORT ensures c.toLength(c.toBytes(n).0, c.toBytes(n).1) == n {
      JoinSplit(n);
    }
    forall a: byte, b: byte ensures c.toBytes(c.toLength(a, b)) == (a, b) {
      SplitJoin(a, b);
    }
  }
}
