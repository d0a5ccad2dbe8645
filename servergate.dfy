/**
 * The packet reassembly of src/actor_gate/servergate.c.  Every connection
 * id has a `connect_state` that collects a 2-byte big-endian length header
 * and then that many body bytes; a completed body goes to the message
 * callback (or is dropped when none is set) and the state starts over.
 * Bytes arrive in arbitrary chunks through `servergate_add`.
 *
 * The per-id states live in an integer-keyed table (imap.c); here that table
 * is its abstract contents, a map from id to state.
 */
module ServerGate {
  import opened Common

  /** HEADER_SIZE: the length prefix is two bytes. */
  const HEADER_SIZE: nat := 2
  /** MAX_PKG_SIZE: the largest body a 16-bit length can announce. */
  const MAX_PKG_SIZE: nat := 0xFFFF

  /**
   * connect_state: `header` holds the header bytes received so far (its
   * length is `header_state.cap`), `size` is the announced body length,
   * `cap` the number of body bytes received and `buffer` the body buffer
   * (None for NULL).
   */
  datatype ConnectState = ConnectState(id: int, cap: nat, size: nat, buffer: Option<seq<byte>>, header: seq<byte>)

  /** The value of a big-endian 16-bit header. */
  function BE16(hi: byte, lo: byte): (v: nat)
    ensures v <= MAX_PKG_SIZE
  {
    hi as int * 256 + lo as int
  }

  /**
   * The state invariant: while the header is incomplete nothing is buffered
   * (the asserts of servergate.c:112-114); once it is complete `size` is
   * its value and the buffer holds the `cap < size` body bytes received so
   * far, or, for an empty body, is an empty buffer waiting to be delivered.
   */
  ghost predicate StateOk(st: ConnectState)
  {
    && |st.header| <= HEADER_SIZE
    && (|st.header| < HEADER_SIZE ==> st.cap == 0 && st.size == 0 && st.buffer == None)
    && (|st.header| == HEADER_SIZE ==>
          && st.buffer.Some? && |st.buffer.value| == st.cap
          && (st.cap < st.size || st.cap == st.size == 0)
          && st.size == BE16(st.header[0], st.header[1]))
  }

  /** _connect_state_new: a zeroed state for `id`. */
  function NewState(id: int): (st: ConnectState)
    ensures StateOk(st) && st.id == id && st.header == [] && st.buffer == None
  {
    ConnectState(id, 0, 0, None, [])
  }

  /** The state after a completed packet: no buffer, `cap = size = 0`, header cap 0. */
  function Reset(st: ConnectState): (r: ConnectState)
    ensures r == NewState(st.id)
  {
    st.(buffer := None, cap := 0, size := 0, header := [])
  }

  /**
   * The header step of the loop: `chunk` is appended to the header bytes;
   * when that completes the header, `size` becomes its value and a body
   * buffer is allocated.
   */
  function TakeHeader(st: ConnectState, chunk: seq<byte>): (r: ConnectState)
    requires StateOk(st) && |st.header| < HEADER_SIZE && |st.header| + |chunk| <= HEADER_SIZE
    ensures StateOk(r) && r.id == st.id && r.header == st.header + chunk
    ensures |r.header| == HEADER_SIZE ==> r.size == BE16(r.header[0], r.header[1]) && r.buffer == Some([]) && r.cap == 0
  {
    var h := st.header + chunk;
    if |h| == HEADER_SIZE then st.(header := h, size := BE16(h[0], h[1]), buffer := Some([]))
    else st.(header := h)
  }

  /**
   * _connect_resolve: `chunk` (which must fit, servergate.c:80) is appended
   * to the body; when the body reaches `size` the packet is returned and
   * the state reset.
   */
  function Resolve(st: ConnectState, chunk: seq<byte>): (r: (ConnectState, Option<seq<byte>>))
    requires StateOk(st) && |st.header| == HEADER_SIZE && st.cap + |chunk| <= st.size
    ensures StateOk(r.0) && r.0.id == st.id
    ensures r.1.Some? <==> st.cap + |chunk| == st.size
    ensures r.1.Some? ==> r.1.value == st.buffer.value + chunk && |r.1.value| == st.size && r.0 == NewState(st.id)
    ensures r.1.None? ==> r.0.buffer == Some(st.buffer.value + chunk) && r.0.cap == st.cap + |chunk| && r.0.header == st.header
  {
    var b := st.buffer.value + chunk;
    if st.cap + |chunk| == st.size then (Reset(st), Some(b))
    else (st.(cap := st.cap + |chunk|, buffer := Some(b)), None)
  }

  function Packets(o: Option<seq<byte>>): seq<seq<byte>>
  {
    if o.Some? then [o.value] else []
  }

  /**
   * The reference decoder, one byte at a time: a header byte goes to the
   * header; a body byte goes to the body and completes the packet when it
   * is the last one; a complete empty packet is delivered when the next
   * byte arrives, which then starts a new header.
   */
  function Step(st: ConnectState, x: byte): (r: (ConnectState, seq<seq<byte>>))
    requires StateOk(st)
    ensures StateOk(r.0) && r.0.id == st.id
  {
    if |st.header| < HEADER_SIZE then (TakeHeader(st, [x]), [])
    else if st.cap == st.size then (TakeHeader(Reset(st), [x]), [st.buffer.value])
    else
      var res := Resolve(st, [x]);
      (res.0, Packets(res.1))
  }

  /** The state and the delivered packets after feeding `data` byte by byte. */
  function FeedBytes(st: ConnectState, data: seq<byte>): (r: (ConnectState, seq<seq<byte>>))
    requires StateOk(st)
    ensures StateOk(r.0) && r.0.id == st.id
    decreases |data|
  {
    if data == [] then (st, [])
    else
      var first := Step(st, data[0]);
      var rest := FeedBytes(first.0, data[1..]);
      (rest.0, first.1 + rest.1)
  }

  /**
   * Chunking does not matter: feeding `a` and then `b` ends in the same
   * state and delivers the same packets, in the same order, as feeding
   * `a + b`.
   */
  lemma {:induction false} FeedAppend(st: ConnectState, a: seq<byte>, b: seq<byte>)
    requires StateOk(st)
    ensures var ra := FeedBytes(st, a);
            var rb := FeedBytes(ra.0, b);
            FeedBytes(st, a + b) == (rb.0, ra.1 + rb.1)
    decreases |a|
  {
    if a == [] {
      assert a + b == b;
      var rb := FeedBytes(st, b);
      assert FeedBytes(st, a) == (st, []);
      assert [] + rb.1 == rb.1;
      assert FeedBytes(st, a + b) == rb;
      assert rb == (rb.0, rb.1);
    } else {
      FeedAppend(Step(st, a[0]).0, a[1..], b);
      FeedAppendCons(st, a, b);
    }
  }

  /** Feeding a non-empty input is one step on its first byte, then the rest. */
  lemma FeedUnfold(st: ConnectState, data: seq<byte>)
    requires StateOk(st) && data != []
    ensures var first := Step(st, data[0]);
            var rest := FeedBytes(first.0, data[1..]);
            FeedBytes(st, data) == (rest.0, first.1 + rest.1)
  {
  }

  /** Dropping the first element of `a + b` drops it from `a`. */
  lemma TailAppend(a: seq<byte>, b: seq<byte>)
    requires a != []
    ensures (a + b)[0] == a[0] && (a + b)[1..] == a[1..] + b
  {
  }

  /** The inductive step of `FeedAppend`: the first byte of `a` is the first byte of `a + b`. */
  lemma FeedAppendCons(st: ConnectState, a: seq<byte>, b: seq<byte>)
    requires StateOk(st) && a != []
    requires var s1 := Step(st, a[0]).0;
             var ra := FeedBytes(s1, a[1..]);
             FeedBytes(s1, a[1..] + b) == (FeedBytes(ra.0, b).0, ra.1 + FeedBytes(ra.0, b).1)
    ensures var ra := FeedBytes(st, a);
            var rb := FeedBytes(ra.0, b);
            FeedBytes(st, a + b) == (rb.0, ra.1 + rb.1)
  {
    var first := Step(st, a[0]);
    var ra := FeedBytes(first.0, a[1..]);
    var rb := FeedBytes(ra.0, b);
    FeedUnfold(st, a);
    TailAppend(a, b);
    FeedUnfold(st, a + b);
    AppendAssoc(first.1, ra.1, rb.1);
  }

  /** Feeding a single byte is one step of the decoder. */
  lemma FeedSingle(st: ConnectState, x: byte)
    requires StateOk(st)
    ensures FeedBytes(st, [x]) == Step(st, x)
  {
    var first := Step(st, x);
    assert [x][1..] == [];
    assert FeedBytes(first.0, []) == (first.0, []);
    assert first.1 + [] == first.1;
  }

  /** Header bytes that fit are absorbed into the header and deliver nothing. */
  lemma HeaderFeeds(st: ConnectState, chunk: seq<byte>)
    requires StateOk(st) && |st.header| < HEADER_SIZE
    requires 0 < |chunk| && |st.header| + |chunk| <= HEADER_SIZE
    ensures FeedBytes(st, chunk) == (TakeHeader(st, chunk), [])
  {
    FeedSingle(st, chunk[0]);
    if |chunk| == 1 {
      assert chunk == [chunk[0]];
    } else {
      assert chunk == [chunk[0]] + [chunk[1]];
      var s1 := TakeHeader(st, [chunk[0]]);
      FeedAppend(st, [chunk[0]], [chunk[1]]);
      FeedSingle(s1, chunk[1]);
      assert TakeHeader(s1, [chunk[1]]) == TakeHeader(st, chunk);
    }
  }

  /**
   * Body bytes that fit are what `_connect_resolve` does with them: they are
   * appended, and the packet is delivered when they complete it.
   */
  lemma {:induction false} BodyFeeds(st: ConnectState, chunk: seq<byte>)
    requires StateOk(st) && |st.header| == HEADER_SIZE
    requires 0 < |chunk| && st.cap + |chunk| <= st.size
    ensures var res := Resolve(st, chunk);
            FeedBytes(st, chunk) == (res.0, Packets(res.1))
    decreases |chunk|
  {
    var one := Resolve(st, [chunk[0]]);
    FeedSingle(st, chunk[0]);
    if |chunk| == 1 {
      assert chunk == [chunk[0]];
    } else {
      var s1 := one.0;
      assert chunk == [chunk[0]] + chunk[1..];
      FeedAppend(st, [chunk[0]], chunk[1..]);
      BodyFeeds(s1, chunk[1..]);
      assert s1.buffer.value + chunk[1..] == st.buffer.value + chunk;
      var res := Resolve(s1, chunk[1..]);
      assert [] + Packets(res.1) == Packets(res.1);
    }
  }

  /**
   * A complete empty packet waiting in the state is delivered by the next
   * byte, after which decoding continues from a fresh state.
   */
  lemma FlushFeeds(st: ConnectState, data: seq<byte>)
    requires StateOk(st) && |st.header| == HEADER_SIZE && st.cap == st.size
    requires data != []
    ensures var r := FeedBytes(Reset(st), data);
            FeedBytes(st, data) == (r.0, [st.buffer.value] + r.1)
  {
    var x := data[0];
    assert data == [x] + data[1..];
    FeedAppend(st, [x], data[1..]);
    FeedAppend(Reset(st), [x], data[1..]);
    FeedSingle(st, x);
    FeedSingle(Reset(st), x);
    var rest := FeedBytes(TakeHeader(Reset(st), [x]), data[1..]);
    assert [] + rest.1 == rest.1;
  }

  /** The outcome of decoding `d` from `st` when `packets` have already been delivered. */
  ghost function After(st: ConnectState, packets: seq<seq<byte>>, d: seq<byte>): (ConnectState, seq<seq<byte>>)
    requires StateOk(st)
  {
    var r := FeedBytes(st, d);
    (r.0, packets + r.1)
  }

  /** A header round of the loop of `servergate_add` agrees with the decoder. */
  lemma HeaderRound(st: ConnectState, packets: seq<seq<byte>>, data: seq<byte>, pos: nat, k: nat)
    requires StateOk(st) && |st.header| < HEADER_SIZE
    requires 0 < k && pos + k <= |data| && |st.header| + k <= HEADER_SIZE
    ensures After(st, packets, data[pos..]) == After(TakeHeader(st, data[pos..pos + k]), packets, data[pos + k..])
  {
    var chunk := data[pos..pos + k];
    assert data[pos..] == chunk + data[pos + k..];
    HeaderFeeds(st, chunk);
    FeedAppend(st, chunk, data[pos + k..]);
    var r := FeedBytes(TakeHeader(st, chunk), data[pos + k..]);
    assert [] + r.1 == r.1;
  }

  /** A body round of the loop of `servergate_add` (one `_connect_resolve`) agrees with the decoder. */
  lemma BodyRound(st: ConnectState, packets: seq<seq<byte>>, data: seq<byte>, pos: nat, k: nat)
    requires StateOk(st) && |st.header| == HEADER_SIZE
    requires pos < |data| && pos + k <= |data| && st.cap + k <= st.size && (0 < k || st.cap == st.size)
    ensures var res := Resolve(st, data[pos..pos + k]);
            After(st, packets, data[pos..]) == After(res.0, packets + Packets(res.1), data[pos + k..])
  {
    var chunk := data[pos..pos + k];
    var rest := data[pos + k..];
    assert data[pos..] == chunk + rest;
    var res := Resolve(st, chunk);
    var r := FeedBytes(res.0, rest);
    if k == 0 {
      FlushRound(st, chunk, rest);
    } else {
      FeedRound(st, chunk, rest);
    }
    assert packets + (Packets(res.1) + r.1) == (packets + Packets(res.1)) + r.1;
  }

  /** A body round that delivers a complete empty packet and consumes nothing. */
  lemma FlushRound(st: ConnectState, chunk: seq<byte>, rest: seq<byte>)
    requires StateOk(st) && |st.header| == HEADER_SIZE && st.cap == st.size
    requires chunk == [] && rest != []
    ensures var res := Resolve(st, chunk);
            var r := FeedBytes(res.0, rest);
            FeedBytes(st, chunk + rest) == (r.0, Packets(res.1) + r.1)
  {
    assert chunk + rest == rest;
    assert st.buffer.value + [] == st.buffer.value;
    FlushFeeds(st, rest);
  }

  /** A body round that consumes a non-empty chunk. */
  lemma FeedRound(st: ConnectState, chunk: seq<byte>, rest: seq<byte>)
    requires StateOk(st) && |st.header| == HEADER_SIZE
    requires 0 < |chunk| && st.cap + |chunk| <= st.size
    ensures var res := Resolve(st, chunk);
            var r := FeedBytes(res.0, rest);
            FeedBytes(st, chunk + rest) == (r.0, Packets(res.1) + r.1)
  {
    BodyFeeds(st, chunk);
    FeedAppend(st, chunk, rest);
  }

  /**
   * The `while (size > 0)` loop of `servergate_add` on one connection
   * state: each round completes the header with as many bytes as it needs
   * and then hands `min(remaining, size - cap)` bytes to `_connect_resolve`.
   * It delivers exactly what the byte-at-a-time decoder delivers.
   */
  method AddBytes(st0: ConnectState, data: seq<byte>) returns (st: ConnectState, packets: seq<seq<byte>>)
    requires StateOk(st0)
    ensures (st, packets) == FeedBytes(st0, data)
  {
    st := st0;
    packets := [];
    var pos := 0;
    assert After(st, packets, data[pos..]) == FeedBytes(st0, data) by {
      assert data[pos..] == data;
      assert [] + FeedBytes(st0, data).1 == FeedBytes(st0, data).1;
    }
    while pos < |data|
      invariant 0 <= pos <= |data| && StateOk(st)
      invariant After(st, packets, data[pos..]) == FeedBytes(st0, data)
      decreases |data| - pos, |st.header|
    {
      if |st.header| < HEADER_SIZE {
        var want := HEADER_SIZE - |st.header|;
        var readSz := if want > |data| - pos then |data| - pos else want;
        var chunk := data[pos..pos + readSz];
        HeaderRound(st, packets, data, pos, readSz);
        st := TakeHeader(st, chunk);
        pos := pos + readSz;
      }
      if pos < |data| {
        var missing := st.size - st.cap;
        var realSize := if |data| - pos >= missing then missing else |data| - pos;
        var chunk := data[pos..pos + realSize];
        BodyRound(st, packets, data, pos, realSize);
        var res := Resolve(st, chunk);
        st := res.0;
        packets := packets + Packets(res.1);
        pos := pos + realSize;
      }
    }
    assert data[pos..] == [];
    assert FeedBytes(st, []) == (st, []);
    assert packets + [] == packets;
  }

  /** The framing of one packet: its length as a big-endian 16-bit number, then its bytes. */
  function Frame(p: seq<byte>): (f: seq<byte>)
    ensures |f| == HEADER_SIZE + |p| && f[HEADER_SIZE..] == p
  {
    [(|p| / 256 % 256) as byte, (|p| % 256) as byte] + p
  }

  /** The header of a frame announces exactly the length of its packet. */
  lemma FrameHeader(p: seq<byte>)
    requires |p| <= MAX_PKG_SIZE
    ensures BE16(Frame(p)[0], Frame(p)[1]) == |p|
  {
  }

  /** The framing of a sequence of packets. */
  function Encode(ps: seq<seq<byte>>): (e: seq<byte>)
    ensures ps != [] ==> |e| >= HEADER_SIZE
  {
    if ps == [] then [] else Frame(ps[0]) + Encode(ps[1..])
  }

  /** The state of `id` after a complete empty packet that nothing has flushed yet. */
  function EmptyPending(id: int): (st: ConnectState)
    ensures StateOk(st) && |st.header| == HEADER_SIZE && st.cap == st.size == 0
  {
    ConnectState(id, 0, 0, Some([]), [0, 0])
  }

  /** One frame fed to a fresh state delivers its packet, or leaves an empty one pending. */
  lemma FrameFeeds(id: int, p: seq<byte>)
    requires |p| <= MAX_PKG_SIZE
    ensures FeedBytes(NewState(id), Frame(p)) ==
              if p == [] then (EmptyPending(id), []) else (NewState(id), [p])
  {
    var f := Frame(p);
    var hdr := f[..HEADER_SIZE];
    assert f == hdr + p;
    HeaderFeeds(NewState(id), hdr);
    FeedAppend(NewState(id), hdr, p);
    var st := TakeHeader(NewState(id), hdr);
    FrameHeader(p);
    if p == [] {
      assert hdr == [0, 0];
    } else {
      assert st.header == hdr && hdr[0] == f[0] && hdr[1] == f[1];
      assert st.size == |p| && st.cap == 0 && st.buffer == Some([]);
      BodyFeeds(st, p);
      var res := Resolve(st, p);
      assert res.1 == Some([] + p) && [] + p == p;
      assert res.0 == NewState(id);
      assert FeedBytes(st, p) == (NewState(id), [p]);
      assert [] + [p] == [p];
    }
  }

  /** Input that ends on a packet boundary can be followed by any other input. */
  lemma ThenFresh(id: int, f: seq<byte>, e: seq<byte>, p: seq<byte>)
    requires FeedBytes(NewState(id), f) == (NewState(id), [p])
    ensures var r := FeedBytes(NewState(id), e);
            FeedBytes(NewState(id), f + e) == (r.0, [p] + r.1)
  {
    FeedAppend(NewState(id), f, e);
  }

  /** Input that leaves an empty packet pending delivers it once more input follows. */
  lemma ThenPending(id: int, f: seq<byte>, e: seq<byte>, st: ConnectState)
    requires StateOk(st) && |st.header| == HEADER_SIZE && st.cap == st.size && st.id == id
    requires FeedBytes(NewState(id), f) == (st, []) && e != []
    ensures var r := FeedBytes(NewState(id), e);
            FeedBytes(NewState(id), f + e) == (r.0, [st.buffer.value] + r.1)
  {
    FeedAppend(NewState(id), f, e);
    FlushFeeds(st, e);
    var r := FeedBytes(NewState(id), e);
    assert [] + ([st.buffer.value] + r.1) == [st.buffer.value] + r.1;
  }

  /**
   * A frame followed by more input: its packet is delivered (an empty one
   * as soon as the next byte arrives) and decoding continues from a fresh
   * state.
   */
  lemma FrameThen(id: int, p: seq<byte>, e: seq<byte>)
    requires |p| <= MAX_PKG_SIZE && e != []
    ensures var r := FeedBytes(NewState(id), e);
            FeedBytes(NewState(id), Frame(p) + e) == (r.0, [p] + r.1)
  {
    FrameFeeds(id, p);
    if p == [] {
      ThenPending(id, Frame(p), e, EmptyPending(id));
    } else {
      ThenFresh(id, Frame(p), e, p);
    }
  }

  /**
   * A frame cut short: the header and the body bytes received so far are
   * held in the state, and nothing is delivered yet.
   */
  lemma PartialFrame(id: int, hi: byte, lo: byte, body: seq<byte>)
    requires |body| < BE16(hi, lo)
    ensures FeedBytes(NewState(id), [hi, lo] + body) ==
              (ConnectState(id, |body|, BE16(hi, lo), Some(body), [hi, lo]), [])
  {
    var st := ConnectState(id, 0, BE16(hi, lo), Some([]), [hi, lo]);
    assert FeedBytes(NewState(id), [hi, lo]) == (st, []) by {
      HeaderFeeds(NewState(id), [hi, lo]);
      assert NewState(id).header + [hi, lo] == [hi, lo];
    }
    var last := ConnectState(id, |body|, BE16(hi, lo), Some(body), [hi, lo]);
    if body == [] {
      assert [hi, lo] + body == [hi, lo];
    } else {
      assert FeedBytes(st, body) == (last, []) by {
        BodyFeeds(st, body);
        assert [] + body == body;
      }
      FeedAppend(NewState(id), [hi, lo], body);
    }
  }

  /**
   * What decoding the framing of `ps` should give: every packet in order and
   * a fresh state, except that a final empty packet stays pending until the
   * next byte arrives.
   */
  ghost function Decoded(id: int, ps: seq<seq<byte>>): (ConnectState, seq<seq<byte>>)
  {
    if |ps| > 0 && |ps[|ps| - 1]| == 0 then (EmptyPending(id), ps[..|ps| - 1]) else (NewState(id), ps)
  }

  /** The framing of one packet decodes to it. */
  lemma RoundTripOne(id: int, ps: seq<seq<byte>>)
    requires |ps| == 1 && |ps[0]| <= MAX_PKG_SIZE
    ensures FeedBytes(NewState(id), Encode(ps)) == Decoded(id, ps)
  {
    SingleParts(ps);
    assert Encode(ps) == Frame(ps[0]) + [] == Frame(ps[0]);
    FrameFeeds(id, ps[0]);
  }

  /** A frame in front of input that decodes as intended still decodes as intended. */
  lemma RoundTripCons(id: int, ps: seq<seq<byte>>)
    requires |ps| >= 2 && forall i :: 0 <= i < |ps| ==> |ps[i]| <= MAX_PKG_SIZE
    requires FeedBytes(NewState(id), Encode(ps[1..])) == Decoded(id, ps[1..])
    ensures FeedBytes(NewState(id), Encode(ps)) == Decoded(id, ps)
  {
    var p := ps[0];
    var rest := ps[1..];
    var r := FeedBytes(NewState(id), Encode(rest));
    assert FeedBytes(NewState(id), Encode(ps)) == (r.0, [p] + r.1) by {
      assert Encode(ps) == Frame(p) + Encode(rest);
      FrameThen(id, p, Encode(rest));
    }
    ConsParts(ps);
    DecodedCons(id, p, rest);
  }

  /** Putting a non-empty packet in front keeps the intended outcome of the rest. */
  lemma DecodedCons(id: int, p: seq<byte>, rest: seq<seq<byte>>)
    requires rest != []
    ensures var d := Decoded(id, rest);
            Decoded(id, [p] + rest) == (d.0, [p] + d.1)
  {
    var ps := [p] + rest;
    assert ps[|ps| - 1] == rest[|rest| - 1];
    if |rest[|rest| - 1]| == 0 {
      assert ps[..|ps| - 1] == [p] + rest[..|rest| - 1];
    }
  }

  /**
   * Round trip: feeding the framing of packets p1..pn to a fresh state
   * delivers p1..pn in order and returns to a fresh state; only a final
   * empty packet stays pending until the next byte arrives.
   */
  lemma {:induction false} RoundTrip(id: int, ps: seq<seq<byte>>)
    requires forall i :: 0 <= i < |ps| ==> |ps[i]| <= MAX_PKG_SIZE
    ensures FeedBytes(NewState(id), Encode(ps)) == Decoded(id, ps)
  {
    if ps == [] {
      assert FeedBytes(NewState(id), []) == (NewState(id), []);
    } else if |ps| == 1 {
      RoundTripOne(id, ps);
    } else {
      RoundTrip(id, ps[1..]);
      RoundTripCons(id, ps);
    }
  }

  /** A one-element sequence is its element, and dropping it leaves nothing. */
  lemma SingleParts<T>(s: seq<T>)
    requires |s| == 1
    ensures s == [s[0]] && s[..0] == [] && s[1..] == [] && s[|s| - 1] == s[0]
  {
  }

  /** How a sequence of two or more elements splits into its head and its tail. */
  lemma ConsParts<T>(s: seq<T>)
    requires |s| >= 2
    ensures s == [s[0]] + s[1..]
    ensures s[|s| - 1] == s[1..][|s| - 2]
    ensures s[..|s| - 1] == [s[0]] + s[1..][..|s| - 2]
  {
  }

  /** servergate_context: the per-id states and whether a message callback is set. */
  class GateContext {
    var conns: map<int, ConnectState>
    var hasCallback: bool

    ghost predicate Valid()
      reads this
    {
      forall id :: id in conns ==> StateOk(conns[id]) && conns[id].id == id
    }

    /** servergate_create: no connection states and no callback. */
    constructor ()
      ensures Valid() && conns == map[] && !hasCallback
    {
      conns := map[];
      hasCallback := false;
    }

    /** servergate_cb: installs (or removes) the message callback. */
    method SetCallback(on: bool)
      modifies this
      ensures hasCallback == on && conns == old(conns)
    {
      hasCallback := on;
    }

    /** The state `servergate_add` works on: the stored one, or a zeroed one for an unseen id. */
    function StateOf(id: int): (st: ConnectState)
      reads this
      requires Valid()
      ensures StateOk(st) && st.id == id
      ensures id !in conns ==> st == NewState(id)
    {
      if id in conns then conns[id] else NewState(id)
    }

    /**
     * servergate_add: the state of `id` (created zeroed if the id is
     * unseen) takes `data`; the packets it completes go to the callback,
     * or are dropped when none is set.  No other id's state changes.
     */
    method Add(id: int, data: seq<byte>) returns (delivered: seq<seq<byte>>)
      requires Valid()
      modifies this
      ensures Valid() && hasCallback == old(hasCallback)
      ensures var r := FeedBytes(old(StateOf(id)), data);
              && conns == old(conns)[id := r.0]
              && delivered == (if hasCallback then r.1 else [])
    {
      var st: ConnectState;
      if id in conns {
        st := conns[id];
      } else {
        st := NewState(id);
        conns := conns[id := st];
      }
      var packets;
      st, packets := AddBytes(st, data);
      conns := conns[id := st];
      delivered := if hasCallback then packets else [];
    }

    /** servergate_del: frees the state of a known id; an unknown id is a no-op. */
    method Del(id: int)
      requires Valid()
      modifies this
      ensures Valid() && hasCallback == old(hasCallback)
      ensures conns == old(conns) - {id}
      ensures id !in old(conns) ==> conns == old(conns)
    {
      if id in conns {
        conns := conns - {id};
      }
    }
  }
}
