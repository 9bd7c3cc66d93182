/** Reliable in-order messages over an arbitrarily chunked byte stream: length-delimited
    framing with a receive buffer (aperturec-channel/src/codec/in_order.rs).  The delimiter is
    the varint of the "Base 128 Varints" section of the Protocol Buffers Encoding
    specification, limited to 64 bits. */
module InOrder {
  import opened Common

  // ----- Varints -----

  function EncodeVarint(n: nat): Bytes {
    if n < 128 then [n as Byte] else [(128 + n % 128) as Byte] + EncodeVarint(n / 128)
  }

  /** The value of the varint at the start of `bs`, when `count` of its bytes have been read. */
  function DecodeVarintAfter(bs: Bytes, count: nat): Option<nat>
    requires count <= 10
    decreases 10 - count
  {
    if bs == [] || count == 10 then None
    else if bs[0] < 128 then
      if count == 9 && bs[0] >= 2 then None else Some(bs[0] as nat)
    else match DecodeVarintAfter(bs[1..], count + 1)
      case None => None
      case Some(high) => Some(bs[0] as nat - 128 + 128 * high)
  }

  function DecodeVarint(bs: Bytes): Option<nat> { DecodeVarintAfter(bs, 0) }

  /** Values below this fit in the bytes that remain after `count` bytes of a 64-bit varint. */
  function Cap(count: nat): nat
    requires count <= 9
    decreases 9 - count
  {
    if count == 9 then 2 else 128 * Cap(count + 1)
  }

  const MAX_LENGTH: nat := 0x1_0000_0000_0000_0000

  /** A varint of ten bytes holds exactly the 64-bit values. */
  lemma CapIs64Bits()
    ensures Cap(0) == MAX_LENGTH
  {
    assert Cap(7) == 32768;
    assert Cap(5) == 536870912;
    assert Cap(3) == 8796093022208;
    assert Cap(1) == 144115188075855872;
  }

  /** Decoding an encoded varint, whatever follows, gives the value back. */
  lemma {:induction false} VarintRoundTrip(n: nat, rest: Bytes, count: nat)
    requires count <= 9 && n < Cap(count)
    ensures DecodeVarintAfter(EncodeVarint(n) + rest, count) == Some(n)
    decreases n
  {
    var bs := EncodeVarint(n) + rest;
    if n >= 128 {
      VarintRoundTrip(n / 128, rest, count + 1);
      assert bs[1..] == EncodeVarint(n / 128) + rest;
    }
  }

  /** No proper prefix of an encoded varint decodes. */
  lemma {:induction false} VarintPrefixFails(n: nat, k: nat, count: nat)
    requires count <= 10 && k < |EncodeVarint(n)|
    ensures DecodeVarintAfter(EncodeVarint(n)[..k], count) == None
    decreases n
  {
    if n >= 128 && k > 0 && count < 10 {
      VarintPrefixFails(n / 128, k - 1, count + 1);
      assert EncodeVarint(n)[..k][1..] == EncodeVarint(n / 128)[..k - 1];
    }
  }

  /** Seven bits a byte, the lowest first. */
  function Base128(bs: Bytes): nat {
    if bs == [] then 0 else bs[0] as nat % 128 + 128 * Base128(bs[1..])
  }

  /** All bytes but the last have their highest bit set. */
  predicate IsVarint(bs: Bytes) {
    bs != [] && bs[|bs| - 1] < 128 && forall i :: 0 <= i < |bs| - 1 ==> bs[i] >= 128
  }

  /** The encoding of a number is a varint of that value, without superfluous bytes. */
  lemma {:induction false} EncodingIsBase128(n: nat)
    ensures IsVarint(EncodeVarint(n)) && Base128(EncodeVarint(n)) == n
    ensures |EncodeVarint(n)| > 1 ==> EncodeVarint(n)[|EncodeVarint(n)| - 1] != 0
  {
    if n >= 128 {
      EncodingIsBase128(n / 128);
      assert EncodeVarint(n)[1..] == EncodeVarint(n / 128);
    }
  }

  /** A value is decoded exactly if the bytes start with a varint of that value of at most ten
      bytes, of which a tenth may only be 0 or 1. */
  predicate StartsWithVarint(bs: Bytes, k: nat, count: nat) {
    k <= |bs| && IsVarint(bs[..k]) && count + k <= 10 && (count + k == 10 ==> bs[k - 1] < 2)
  }

  lemma {:induction false} DecodingIsBase128(bs: Bytes, count: nat) returns (k: nat)
    requires count <= 10
    ensures DecodeVarintAfter(bs, count).Some? <==> StartsWithVarint(bs, k, count)
    ensures DecodeVarintAfter(bs, count) == None ==> forall j :: !StartsWithVarint(bs, j, count)
    ensures DecodeVarintAfter(bs, count).Some? ==> DecodeVarintAfter(bs, count) == Some(Base128(bs[..k]))
    decreases 10 - count
  {
    k := 0;
    if bs == [] || count == 10 {
    } else if bs[0] < 128 {
      k := 1;
      assert bs[..1][1..] == [];
      forall j | j > 1 && j <= |bs| ensures !IsVarint(bs[..j]) {
        assert bs[..j][0] == bs[0];
      }
    } else {
      var k' := DecodingIsBase128(bs[1..], count + 1);
      k := k' + 1;
      forall j: nat | 0 < j <= |bs| - 1
        ensures IsVarint(bs[..j + 1]) <==> IsVarint(bs[1..][..j])
        ensures bs[..j + 1][1..] == bs[1..][..j]
      {
        assert bs[..j + 1][1..] == bs[1..][..j];
        assert forall i :: 0 <= i < j ==> bs[..j + 1][i + 1] == bs[1..][..j][i];
      }
      forall j: nat ensures StartsWithVarint(bs, j, count) <==> j > 1 && StartsWithVarint(bs[1..], j - 1, count + 1) {
      }
    }
  }

  // ----- Framing -----

  /** A message's bytes behind their length (`encode`). */
  function Encode(payload: Bytes): Bytes { EncodeVarint(|payload|) + payload }

  function EncodeAll(payloads: seq<Bytes>): Bytes {
    if payloads == [] then [] else Encode(payloads[0]) + EncodeAll(payloads[1..])
  }

  /** The delimiter that the first `k` bytes decode to. */
  function DelimiterIn(s: Bytes, k: nat): Option<nat>
    requires k <= |s|
  {
    DecodeVarint(s[..k])
  }

  /** The stream starts with a delimiter of `k` bytes, found by trying every shorter prefix
      first, that announces `n` bytes. */
  ghost predicate StartsWithDelimiter(s: Bytes, k: nat, n: nat) {
    k <= |s| && DelimiterIn(s, k) == Some(n) && NoneShorter(s, k)
  }

  /** No prefix shorter than `k` is a varint. */
  ghost predicate NoneShorter(s: Bytes, k: nat) {
    forall j: nat :: j < k && j <= |s| ==> DelimiterIn(s, j) == None
  }

  lemma OneLonger(s: Bytes, k: nat)
    requires NoneShorter(s, k) && k <= |s| && DelimiterIn(s, k) == None
    ensures NoneShorter(s, k + 1)
  {}

  /** The stream starts with a whole frame of `total` bytes around `payload`. */
  ghost predicate StartsWithFrame(s: Bytes, payload: Bytes, total: nat) {
    |payload| <= total <= |s| && StartsWithDelimiter(s, total - |payload|, |payload|) &&
    s[total - |payload|..total] == payload
  }

  lemma DelimiterIsUnique(s: Bytes, k: nat, n: nat, k': nat, n': nat)
    requires StartsWithDelimiter(s, k, n) && StartsWithDelimiter(s, k', n')
    ensures k == k' && n == n'
  {
    assert NoneShorter(s, k) && NoneShorter(s, k');
    assert DelimiterIn(s, k).Some? && DelimiterIn(s, k').Some?;
  }

  /** The stream does not hold a whole frame yet. */
  ghost predicate NoFrame(s: Bytes) {
    forall payload, total :: !StartsWithFrame(s, payload, total)
  }

  /** A stream starts with at most one frame. */
  lemma FrameIsUnique(s: Bytes, p: Bytes, t: nat, p': Bytes, t': nat)
    requires StartsWithFrame(s, p, t) && StartsWithFrame(s, p', t')
    ensures p == p' && t == t'
  {
    DelimiterIsUnique(s, t - |p|, |p|, t' - |p'|, |p'|);
  }

  /** An encoded message is read back as itself, with its whole length, whatever follows. */
  lemma EncodedFrame(payload: Bytes, rest: Bytes)
    requires |payload| < MAX_LENGTH
    ensures StartsWithFrame(Encode(payload) + rest, payload, |Encode(payload)|)
    ensures (Encode(payload) + rest)[|Encode(payload)|..] == rest
  {
    var delimiter := EncodeVarint(|payload|);
    var s := Encode(payload) + rest;
    var k := |delimiter|;
    assert s[..k] == delimiter + [];
    CapIs64Bits();
    VarintRoundTrip(|payload|, [], 0);
    forall j: nat | j < k ensures DelimiterIn(s, j) == None {
      VarintPrefixFails(|payload|, j, 0);
      assert s[..j] == delimiter[..j];
    }
  }

  // ----- Receiving -----

  /** What the transport delivers, call by call; past the end it fails. */
  datatype Arrival = Chunk(bytes: Bytes) | Timeout

  function Delivered(a: Arrival): Bytes { if a.Chunk? then a.bytes else [] }

  /** The bytes of the arrivals from position `next` on. */
  function Flatten(arrivals: seq<Arrival>, next: nat): Bytes
    decreases |arrivals| - next
  {
    if next >= |arrivals| then [] else Delivered(arrivals[next]) + Flatten(arrivals, next + 1)
  }

  /** The transport never delivers an empty chunk. */
  predicate NonEmptyChunks(arrivals: seq<Arrival>) {
    forall i :: 0 <= i < |arrivals| && arrivals[i].Chunk? ==> arrivals[i].bytes != []
  }

  /** The bytes of the arrivals from `lo` up to `hi`. */
  function Between(arrivals: seq<Arrival>, lo: nat, hi: nat): Bytes
    requires lo <= hi <= |arrivals|
    decreases hi - lo
  {
    if lo == hi then [] else Between(arrivals, lo, hi - 1) + Delivered(arrivals[hi - 1])
  }

  lemma {:induction false} BetweenAndRest(arrivals: seq<Arrival>, lo: nat, hi: nat)
    requires lo <= hi <= |arrivals|
    ensures Flatten(arrivals, lo) == Between(arrivals, lo, hi) + Flatten(arrivals, hi)
    decreases hi - lo
  {
    if lo < hi {
      BetweenAndRest(arrivals, lo, hi - 1);
    }
  }

  /** The transport was called only while what was buffered held no whole frame. */
  ghost predicate CalledInNeed(arrivals: seq<Arrival>, buf: Bytes, lo: nat, hi: nat) {
    lo <= hi <= |arrivals| && forall n :: lo <= n < hi ==> NoFrame(buf + Between(arrivals, lo, n))
  }

  predicate AllChunks(arrivals: seq<Arrival>, lo: nat, hi: nat) {
    hi <= |arrivals| && forall n :: lo <= n < hi ==> arrivals[n].Chunk?
  }

  lemma CalledOnceMore(arrivals: seq<Arrival>, buf: Bytes, lo: nat, hi: nat)
    requires CalledInNeed(arrivals, buf, lo, hi) && hi < |arrivals| && NoFrame(buf + Between(arrivals, lo, hi))
    ensures CalledInNeed(arrivals, buf, lo, hi + 1)
    ensures buf + Between(arrivals, lo, hi + 1) == (buf + Between(arrivals, lo, hi)) + Delivered(arrivals[hi])
  {}

  datatype Received<+M> = Message(msg: M, length: nat) | TimedOut | DecodeError | TransportError

  class Receiver<M> {
    const decode: Bytes -> Option<M>
    const arrivals: seq<Arrival>
    var next: nat
    var buf: Bytes

    ghost predicate Valid()
      reads this
    {
      NonEmptyChunks(arrivals) && next <= |arrivals|
    }

    /** Every byte received and not yet consumed, or still to arrive. */
    ghost function Stream(): Bytes
      reads this
    {
      buf + Flatten(arrivals, next)
    }

    constructor (decode: Bytes -> Option<M>, buf: Bytes, arrivals: seq<Arrival>, next: nat)
      ensures this.decode == decode && this.buf == buf && this.arrivals == arrivals && this.next == next
    {
      this.decode, this.buf, this.arrivals, this.next := decode, buf, arrivals, next;
    }

    /** What the calls of the transport since position `from` have done to a buffer `before`. */
    ghost predicate Took(before: Bytes, from: nat)
      reads this
    {
      CalledInNeed(arrivals, before, from, next) && buf == before + Between(arrivals, from, next)
    }

    /** Why receiving stopped with no whole frame buffered: the last call brought a timeout, or
        the transport has failed; all other calls brought chunks. */
    ghost predicate Stopped(r: Received<M>, from: nat)
      reads this
    {
      next <= |arrivals| && NoFrame(buf) &&
      ((r.TimedOut? && from < next && arrivals[next - 1] == Timeout && AllChunks(arrivals, from, next - 1)) ||
       (r.TransportError? && next == |arrivals| && AllChunks(arrivals, from, next)))
    }

    /** One call of the transport: a chunk goes to the end of the buffer, a timeout or the
        transport's failure stops the receiver. */
    method ReceiveChunk() returns (stopped: Option<Received<M>>)
      requires Valid()
      modifies this
      ensures Valid()
      ensures stopped == None ==> next == old(next) + 1 && arrivals[old(next)].Chunk?
      ensures stopped == None ==> buf == old(buf) + arrivals[old(next)].bytes && |old(buf)| < |buf|
      ensures stopped != None ==> buf == old(buf)
      ensures stopped == Some(TimedOut) ==> next == old(next) + 1 && arrivals[old(next)] == Timeout
      ensures stopped == Some(TransportError) ==> next == old(next) == |arrivals|
      ensures stopped == None || stopped == Some(TimedOut) || stopped == Some(TransportError)
    {
      if next == |arrivals| { return Some(TransportError); }
      var head := arrivals[next];
      next := next + 1;
      if head == Timeout { return Some(TimedOut); }
      buf := buf + head.bytes;
      stopped := None;
    }

    /** A call of the transport when no whole frame is buffered. */
    method ReceiveMore(ghost before: Bytes, ghost from: nat) returns (stopped: Option<Received<M>>)
      requires Valid() && Took(before, from) && NoFrame(buf) && AllChunks(arrivals, from, next)
      modifies this
      ensures Valid() && Took(before, from) && old(buf) <= buf && old(next) <= next
      ensures stopped == None ==> AllChunks(arrivals, from, next) && |old(buf)| < |buf| && old(next) < next
      ensures stopped != None ==> Stopped(stopped.value, from)
    {
      if next < |arrivals| {
        CalledOnceMore(arrivals, before, from, next);
      }
      stopped := ReceiveChunk();
    }

    /** Tries to read a delimiter from the first `k` bytes of the buffer. */
    method TryDelimiter(k: nat) returns (decoded: Option<nat>)
      requires k <= |buf|
      ensures decoded == DelimiterIn(buf, k)
    {
      decoded := DecodeVarint(buf[..k]);
    }

    /** Reads the delimiter, growing the prefix that is tried byte by byte. */
    method ReceiveDelimiter() returns (stopped: Option<Received<M>>, delimLen: nat, msgLen: nat)
      requires Valid()
      modifies this
      ensures Valid() && Took(old(buf), old(next)) && old(next) <= next
      ensures stopped == None ==> AllChunks(arrivals, old(next), next)
      ensures stopped == None ==> delimLen <= |buf| && StartsWithDelimiter(buf, delimLen, msgLen)
      ensures stopped != None ==> Stopped(stopped.value, old(next))
    {
      delimLen, msgLen := 0, 0;
      while true
        invariant Valid() && Took(old(buf), old(next)) && AllChunks(arrivals, old(next), next) && old(next) <= next
        invariant delimLen <= |buf| && NoneShorter(buf, delimLen)
        decreases |arrivals| - next, |buf| - delimLen
      {
        var decoded := TryDelimiter(delimLen);
        if decoded != None {
          return None, delimLen, decoded.value;
        }
        OneLonger(buf, delimLen);
        delimLen := delimLen + 1;
        if delimLen > |buf| {
          NoDelimiter(buf);
          ghost var before := buf;
          stopped := ReceiveMore(old(buf), old(next));
          if stopped != None { return; }
          StillNoneShorter(before, buf, delimLen);
        }
      }
    }

    /** `receive_internal`: one message, a timeout, or an error.  The transport is called only
        while no whole frame is buffered.  Unless a message is returned no byte is consumed; a
        returned message consumes exactly its frame. */
    method ReceiveInternal() returns (r: Received<M>)
      requires Valid()
      modifies this
      ensures Valid() && old(next) <= next && CalledInNeed(arrivals, old(buf), old(next), next)
      ensures !r.Message? ==> buf == old(buf) + Between(arrivals, old(next), next)
      ensures r.Message? || r.DecodeError? ==> AllChunks(arrivals, old(next), next)
      ensures r.Message? ==> exists payload ::
        var all := old(buf) + Between(arrivals, old(next), next);
        StartsWithFrame(all, payload, r.length) && decode(payload) == Some(r.msg) && buf == all[r.length..]
      ensures r.DecodeError? ==> exists payload, total ::
        StartsWithFrame(buf, payload, total) && decode(payload) == None
      ensures r.TimedOut? || r.TransportError? ==> Stopped(r, old(next))
    {
      var stopped, delimLen, msgLen := ReceiveDelimiter();
      if stopped != None { return stopped.value; }
      var totalLen := delimLen + msgLen;
      while totalLen > |buf|
        invariant Valid() && Took(old(buf), old(next)) && AllChunks(arrivals, old(next), next) && old(next) <= next
        invariant delimLen <= |buf| && StartsWithDelimiter(buf, delimLen, msgLen)
        decreases |arrivals| - next
      {
        ShortFrame(buf, delimLen, msgLen);
        ghost var before := buf;
        stopped := ReceiveMore(old(buf), old(next));
        if stopped != None { return stopped.value; }
        SameDelimiter(before, buf, delimLen, msgLen);
      }
      var remainingLen := |buf| - totalLen;
      var payload := buf[delimLen..totalLen];
      assert StartsWithFrame(buf, payload, totalLen);
      var msg := decode(payload);
      if msg == None { return DecodeError; }
      CleanUp(totalLen, remainingLen);
      r := Message(msg.value, totalLen);
    }

    /** The same told on the stream, buffered and still to come: no byte of it is lost, and a
        message is always that of the frame at its head. */
    method ReceiveFromStream() returns (r: Received<M>)
      requires Valid()
      modifies this
      ensures Valid() && old(next) <= next && CalledInNeed(arrivals, old(buf), old(next), next)
      ensures r.Message? ==> exists payload ::
        StartsWithFrame(old(Stream()), payload, r.length) && decode(payload) == Some(r.msg) &&
        Stream() == old(Stream())[r.length..]
      ensures !r.Message? ==> Stream() == old(Stream())
      ensures r.DecodeError? ==> exists payload, total ::
        StartsWithFrame(Stream(), payload, total) && decode(payload) == None
      ensures r.TimedOut? || r.TransportError? ==> Stopped(r, old(next))
      ensures r.TransportError? ==> Stream() == buf
    {
      ghost var before, from := buf, next;
      r := ReceiveInternal();
      BetweenAndRest(arrivals, from, next);
      ghost var all, rest := before + Between(arrivals, from, next), Flatten(arrivals, next);
      assert old(Stream()) == all + rest;
      if r.Message? {
        ghost var payload :| StartsWithFrame(all, payload, r.length) && decode(payload) == Some(r.msg);
        FrameStaysFirst(all, rest, payload, r.length);
        assert Stream() == (all + rest)[r.length..];
      } else if r.DecodeError? {
        ghost var payload, total :| StartsWithFrame(buf, payload, total) && decode(payload) == None;
        FrameStaysFirst(buf, rest, payload, total);
      }
    }

    /** A whole frame that is buffered comes out at once, as its message or as a decode error,
        without a call of the transport. */
    method ReceiveBuffered(ghost payload: Bytes, ghost total: nat) returns (r: Received<M>)
      requires Valid() && StartsWithFrame(buf, payload, total)
      modifies this
      ensures Valid() && next == old(next)
      ensures r == match decode(payload) case Some(msg) => Message(msg, total) case None => DecodeError
      ensures buf == if r.Message? then old(buf)[total..] else old(buf)
    {
      ghost var before, from := buf, next;
      r := ReceiveInternal();
      assert before + Between(arrivals, from, from) == before;
      assert next == from;
      if r.Message? {
        ghost var p :| StartsWithFrame(before, p, r.length) && decode(p) == Some(r.msg);
        FrameIsUnique(before, p, r.length, payload, total);
      } else if r.DecodeError? {
        ghost var p, t :| StartsWithFrame(buf, p, t) && decode(p) == None;
        FrameIsUnique(before, p, t, payload, total);
      }
    }

    /** The blocking `receive`: without timeouts there is always a message or an error. */
    method Receive() returns (r: Received<M>)
      requires Valid() && Timeout !in arrivals
      modifies this
      ensures Valid() && !r.TimedOut? && old(next) <= next && CalledInNeed(arrivals, old(buf), old(next), next)
      ensures r.Message? ==> exists payload ::
        StartsWithFrame(old(Stream()), payload, r.length) && decode(payload) == Some(r.msg) &&
        Stream() == old(Stream())[r.length..]
      ensures !r.Message? ==> Stream() == old(Stream())
      ensures r.TransportError? ==> NoFrame(Stream())
    {
      r := ReceiveFromStream();
    }

    /** One call on the encoding of `payloads`: the first message, or a timeout that costs no
        byte, or the transport's failure when nothing is left. */
    method ReceiveNext(ghost payloads: seq<Bytes>) returns (r: Received<M>)
      requires Valid() && Stream() == EncodeAll(payloads)
      requires Receivable(decode, payloads)
      modifies this
      ensures Valid() && old(next) <= next && !r.DecodeError? && CalledInNeed(arrivals, old(buf), old(next), next)
      ensures r.Message? ==> payloads != [] && Stream() == EncodeAll(payloads[1..])
      ensures r.Message? ==> decode(payloads[0]) == Some(r.msg) && r.length == |Encode(payloads[0])|
      ensures r.TimedOut? ==> Stream() == EncodeAll(payloads) && old(next) < next && NoFrame(buf)
      ensures r.TransportError? ==> payloads == [] && Stream() == [] && next == |arrivals|
    {
      ghost var s := Stream();
      HeadOfEncoded(payloads);
      r := ReceiveFromStream();
      if r.Message? {
        ghost var payload :| StartsWithFrame(s, payload, r.length) && decode(payload) == Some(r.msg);
        FrameIsUnique(s, payload, r.length, payloads[0], |Encode(payloads[0])|);
      } else if !r.TimedOut? {
        AtTheEnd(decode, payloads, s, r);
      }
    }

    /** Receives until the transport fails, trying again after every timeout.  Whatever the
        split of the encoded messages into chunks and wherever the timeouts fall, exactly the
        encoded messages come out, in order, each with the length of its frame, and no byte is
        left over. */
    method ReceiveAll(ghost payloads: seq<Bytes>) returns (received: seq<(M, nat)>)
      requires Valid() && Stream() == EncodeAll(payloads)
      requires Receivable(decode, payloads)
      modifies this
      ensures received == Expected(decode, payloads) && buf == [] && next == |arrivals|
    {
      received := [];
      ghost var rest := payloads;
      while true
        invariant Valid() && Stream() == EncodeAll(rest)
        invariant Receivable(decode, rest) && received + Expected(decode, rest) == Expected(decode, payloads)
        decreases |rest|, |arrivals| - next
      {
        var r := ReceiveNext(rest);
        if r.Message? {
          assert Expected(decode, rest) == [(r.msg, r.length)] + Expected(decode, rest[1..]);
          AppendOne(received, (r.msg, r.length), Expected(decode, rest[1..]));
          received := received + [(r.msg, r.length)];
          rest := rest[1..];
        } else if r.TransportError? {
          return;
        }
      }
    }

    /** Rotates the frame to the end of the buffer, zeroes it and cuts it off. */
    method CleanUp(totalLen: nat, remainingLen: nat)
      requires totalLen + remainingLen == |buf|
      modifies `buf
      ensures buf == old(buf)[totalLen..]
    {
      buf := buf[totalLen..] + buf[..totalLen];
      buf := buf[..remainingLen] + seq(totalLen, _ => 0);
      buf := buf[..remainingLen];
    }
  }

  /** A buffer none of whose prefixes is a delimiter starts with no frame. */
  lemma NoDelimiter(buf: Bytes)
    requires NoneShorter(buf, |buf| + 1)
    ensures NoFrame(buf)
  {}

  lemma StillNoneShorter(before: Bytes, buf: Bytes, k: nat)
    requires before <= buf && NoneShorter(before, k) && k <= |before| + 1
    ensures NoneShorter(buf, k)
  {
    forall j: nat | j < k && j <= |buf| ensures DelimiterIn(buf, j) == None {
      assert DelimiterIn(before, j) == None;
      assert before[..j] == buf[..j];
    }
  }

  lemma SameDelimiter(before: Bytes, buf: Bytes, k: nat, n: nat)
    requires before <= buf && StartsWithDelimiter(before, k, n)
    ensures StartsWithDelimiter(buf, k, n)
  {
    assert before[..k] == buf[..k];
    StillNoneShorter(before, buf, k);
  }

  /** Nor does one that ends before the announced length. */
  lemma ShortFrame(buf: Bytes, k: nat, n: nat)
    requires StartsWithDelimiter(buf, k, n) && |buf| < k + n
    ensures NoFrame(buf)
  {
    forall payload: Bytes, total: nat ensures !StartsWithFrame(buf, payload, total) {
      if StartsWithFrame(buf, payload, total) {
        DelimiterIsUnique(buf, k, n, total - |payload|, |payload|);
      }
    }
  }

  /** More bytes behind it leave a frame where it is. */
  lemma FrameStaysFirst(buf: Bytes, more: Bytes, payload: Bytes, total: nat)
    requires StartsWithFrame(buf, payload, total)
    ensures StartsWithFrame(buf + more, payload, total)
    ensures (buf + more)[total..] == buf[total..] + more
  {
    SameDelimiter(buf, buf + more, total - |payload|, |payload|);
    assert (buf + more)[total - |payload|..total] == buf[total - |payload|..total];
  }

  lemma AppendOne<T>(a: seq<T>, x: T, b: seq<T>)
    ensures a + ([x] + b) == (a + [x]) + b
  {}

  predicate Receivable<M>(decode: Bytes -> Option<M>, payloads: seq<Bytes>) {
    forall i :: 0 <= i < |payloads| ==> |payloads[i]| < MAX_LENGTH && decode(payloads[i]).Some?
  }

  /** The messages in order, each with the length of its frame. */
  function Expected<M>(decode: Bytes -> Option<M>, payloads: seq<Bytes>): seq<(M, nat)>
    requires Receivable(decode, payloads)
  {
    if payloads == [] then []
    else [(decode(payloads[0]).value, |Encode(payloads[0])|)] + Expected(decode, payloads[1..])
  }

  /** An encoded list starts with the frame of its first message, and an empty one with none. */
  lemma HeadOfEncoded(payloads: seq<Bytes>)
    requires payloads != [] ==> |payloads[0]| < MAX_LENGTH
    ensures payloads != [] ==>
      var s := EncodeAll(payloads);
      StartsWithFrame(s, payloads[0], |Encode(payloads[0])|) &&
      s[|Encode(payloads[0])|..] == EncodeAll(payloads[1..])
    ensures payloads == [] ==> NoFrame(EncodeAll(payloads))
  {
    if payloads != [] {
      EncodedFrame(payloads[0], EncodeAll(payloads[1..]));
    }
  }

  /** Receiving an encoded list stops only when all of it has been received. */
  lemma AtTheEnd<M>(decode: Bytes -> Option<M>, rest: seq<Bytes>, s: Bytes, r: Received<M>)
    requires Receivable(decode, rest) && s == EncodeAll(rest)
    requires r.TransportError? ==> NoFrame(s)
    requires r.DecodeError? ==> exists payload, total :: StartsWithFrame(s, payload, total) && decode(payload) == None
    requires r.TransportError? || r.DecodeError?
    ensures rest == [] && s == [] && r.TransportError?
  {
    HeadOfEncoded(rest);
    if rest != [] && r.DecodeError? {
      var payload, total :| StartsWithFrame(s, payload, total) && decode(payload) == None;
      FrameIsUnique(s, payload, total, rest[0], |Encode(rest[0])|);
    }
  }

  // ----- Splitting a duplex channel -----

  /** The synchronous split moves the receive buffer to the receive half, so receiving goes on
      exactly where it stood, in the middle of a message or not. */
  method SplitDuplex<M>(d: Receiver<M>) returns (half: Receiver<M>)
    ensures fresh(half) && half.buf == d.buf && half.Stream() == d.Stream()
    ensures half.decode == d.decode && half.arrivals == d.arrivals && half.next == d.next
  {
    half := new Receiver<M>(d.decode, d.buf, d.arrivals, d.next);
  }

  /** The asynchronous split starts the receive half with an empty buffer, so the half sees the
      stream without what was buffered: all of it if and only if nothing was. */
  method SplitAsyncDuplex<M>(d: Receiver<M>) returns (half: Receiver<M>)
    ensures fresh(half) && half.buf == []
    ensures half.decode == d.decode && half.arrivals == d.arrivals && half.next == d.next
    ensures half.Stream() == d.Stream()[|d.buf|..]
    ensures half.Stream() == d.Stream() <==> d.buf == []
  {
    half := new Receiver<M>(d.decode, [], d.arrivals, d.next);
    assert |d.Stream()| == |d.buf| + |half.Stream()|;
  }

  /** A duplex channel that has buffered a whole message, with nothing more to come: received
      through the synchronous split the message comes out, through the asynchronous one the
      transport's failure does, and the message is lost. */
  method AsyncSplitLosesBufferedMessage<M>(d: Receiver<M>, payload: Bytes)
    returns (kept: Received<M>, lost: Received<M>)
    requires d.Valid() && d.next == |d.arrivals| && d.buf == Encode(payload)
    requires |payload| < MAX_LENGTH && d.decode(payload).Some?
    ensures kept == Message(d.decode(payload).value, |Encode(payload)|)
    ensures lost == TransportError
  {
    assert d.Stream() == EncodeAll([payload]);
    var half := SplitDuplex(d);
    kept := half.ReceiveNext([payload]);
    var asyncHalf := SplitAsyncDuplex(d);
    assert asyncHalf.Stream() == EncodeAll([]);
    lost := asyncHalf.ReceiveNext([]);
  }
}
