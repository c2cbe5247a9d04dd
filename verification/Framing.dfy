/** Packets on a byte stream: short ones in one frame, long ones in fragments. */
module Framing {
  import opened PutRule
  import opened Operations
  import opened ByteCodec

  const FRAGMENT_MIN_SIZE: nat := 1024

  /** A frame: what kind it is, the length of its content, the content. */
  function Frame(kind: byte, content: Bytes): (b: Bytes)
    ensures |b| == 5 + |content|
  {
    [kind] + BigEndian(|content|, 4) + content
  }

  /** The fragments of what is left of a long packet. The last takes the remainder by the fragment size, which is
      nothing when a whole fragment is left. */
  function Fragments(p: Bytes): Bytes
    decreases |p|
  {
    if |p| <= FRAGMENT_MIN_SIZE then Frame(3, p[..|p| % FRAGMENT_MIN_SIZE])
    else Frame(1, p[..FRAGMENT_MIN_SIZE]) + Fragments(p[FRAGMENT_MIN_SIZE..])
  }

  function Frames(p: Bytes): Bytes {
    if |p| < FRAGMENT_MIN_SIZE then Frame(0, p) else Fragments(p)
  }

  function FramesAll(packets: seq<Bytes>): Bytes {
    if packets == [] then [] else Frames(packets[0]) + FramesAll(packets[1..])
  }

  /** What a read gives: the content and what follows it on the stream. */
  datatype Read = Read(content: Bytes, rest: Bytes)

  /** Reads a length and so many bytes; a length of zero is skipped. Nothing when the stream ends too soon. */
  function ReadContent(s: Bytes): (r: Option<Read>)
    ensures r.Some? ==> r.value.content != [] && |r.value.rest| < |s|
    decreases |s|
  {
    if |s| < 4 then None
    else
      var length := FromBigEndian(s[..4]);
      if length == 0 then ReadContent(s[4..])
      else if |s| - 4 < length then None
      else Some(Read(s[4..4 + length], s[4 + length..]))
  }

  predicate IsFragment(kind: byte) { kind % 2 == 1 }

  predicate IsLastFragment(kind: byte) { kind % 4 == 3 }

  /** Reads fragments, the kind of the first already known, up to one marked as the last. */
  function ReadFragments(kind: byte, s: Bytes): (r: Option<Read>)
    ensures r.Some? ==> |r.value.rest| < |s|
    decreases |s|
  {
    var first := ReadContent(s);
    if first.None? then None
    else if IsLastFragment(kind) then first
    else if first.value.rest == [] then None
    else
      Behind(first.value.content, ReadFragments(first.value.rest[0], first.value.rest[1..]))
  }

  function ReadPacket(s: Bytes): Option<Read> {
    if s == [] then None
    else if IsFragment(s[0]) then ReadFragments(s[0], s[1..])
    else ReadContent(s[1..])
  }

  lemma FrameRead(kind: byte, content: Bytes, rest: Bytes)
    requires |content| < TWO_32
    ensures (Frame(kind, content) + rest)[0] == kind
    ensures ReadContent((Frame(kind, content) + rest)[1..]) == if content == [] then ReadContent(rest) else Some(Read(content, rest))
  {
    var s := (Frame(kind, content) + rest)[1..];
    Pow256Values();
    BigEndianRoundTrip(|content|, 4);
    assert s[..4] == BigEndian(|content|, 4);
    assert s[4..4 + |content|] == content && s[4 + |content|..] == rest;
  }

  /** What reading a packet must give: the packet and what follows, or else, when its length is a multiple of the
      fragment size, at best something that goes past its end. */
  predicate Outcome(p: Bytes, rest: Bytes, r: Option<Read>) {
    if |p| % FRAGMENT_MIN_SIZE != 0 then r == Some(Read(p, rest)) else r.Some? ==> |r.value.rest| < |rest|
  }

  lemma LastRead(p: Bytes, rest: Bytes, s: Bytes)
    requires 0 < |p| <= FRAGMENT_MIN_SIZE && s == Frame(3, p[..|p| % FRAGMENT_MIN_SIZE]) + rest
    ensures s[0] == 3 && Outcome(p, rest, ReadFragments(3, s[1..]))
  {
    FrameRead(3, p[..|p| % FRAGMENT_MIN_SIZE], rest);
    if |p| < FRAGMENT_MIN_SIZE {
      assert p[..|p|] == p;
    }
  }

  lemma ChunkRead(chunk: Bytes, tail: Bytes, s: Bytes)
    requires |chunk| == FRAGMENT_MIN_SIZE && s == Frame(1, chunk) + tail && tail != []
    ensures s[0] == 1 && ReadFragments(1, s[1..]) == Behind(chunk, ReadFragments(tail[0], tail[1..]))
  {
    FrameRead(1, chunk, tail);
  }

  lemma OutcomeBehind(chunk: Bytes, left: Bytes, rest: Bytes, r: Option<Read>)
    requires |chunk| == FRAGMENT_MIN_SIZE && Outcome(left, rest, r)
    ensures Outcome(chunk + left, rest, Behind(chunk, r))
  {
    assert |chunk + left| % FRAGMENT_MIN_SIZE == |left| % FRAGMENT_MIN_SIZE;
  }

  /** Fragments that do not end on a whole one are put together again; otherwise the reader goes past them. */
  lemma {:induction false} FragmentsRead(p: Bytes, rest: Bytes, s: Bytes)
    requires p != [] && s == Fragments(p) + rest
    ensures s != [] && IsFragment(s[0]) && Outcome(p, rest, ReadFragments(s[0], s[1..]))
    decreases |p|
  {
    if |p| <= FRAGMENT_MIN_SIZE {
      LastRead(p, rest, s);
    } else {
      var chunk, left := p[..FRAGMENT_MIN_SIZE], p[FRAGMENT_MIN_SIZE..];
      var tail := Fragments(left) + rest;
      assert s == Frame(1, chunk) + tail;
      FragmentsRead(left, rest, tail);
      ChunkRead(chunk, tail, s);
      OutcomeBehind(chunk, left, rest, ReadFragments(tail[0], tail[1..]));
      assert p == chunk + left;
    }
  }

  /** A packet is read back, and exactly its bytes are used up, if and only if its length is not a multiple of the
      fragment size. */
  lemma PacketRoundTrip(p: Bytes, rest: Bytes)
    ensures ReadPacket(Frames(p) + rest) == Some(Read(p, rest)) <==> |p| % 1024 != 0
  {
    if |p| < FRAGMENT_MIN_SIZE {
      FrameRead(0, p, rest);
    } else {
      FragmentsRead(p, rest, Frames(p) + rest);
    }
  }

  /** Reads so many packets, one after another. */
  function ReadMany(count: nat, s: Bytes): Option<(seq<Bytes>, Bytes)> {
    if count == 0 then Some(([], s))
    else match ReadPacket(s)
         case None => None
         case Some(first) =>
           match ReadMany(count - 1, first.rest)
           case None => None
           case Some((others, rest)) => Some(([first.content] + others, rest))
  }

  predicate AllSendable(packets: seq<Bytes>) {
    forall i :: 0 <= i < |packets| ==> |packets[i]| % 1024 != 0
  }

  /** Nothing that is read is empty. */
  lemma {:induction false} ReadNonEmpty(kind: byte, s: Bytes)
    ensures ReadFragments(kind, s).Some? ==> ReadFragments(kind, s).value.content != []
    decreases |s|
  {
    var first := ReadContent(s);
    if first.None? || IsLastFragment(kind) || first.value.rest == [] {
    } else {
      ReadNonEmpty(first.value.rest[0], first.value.rest[1..]);
    }
  }

  /** A packet whose length is a multiple of the fragment size loses its last fragment: the reader puts the content of
      what follows in its place. */
  lemma {:induction false} WholeRead(p: Bytes, rest: Bytes, s: Bytes)
    requires p != [] && |p| % FRAGMENT_MIN_SIZE == 0 && s == Fragments(p) + rest
    ensures s != [] && IsFragment(s[0])
    ensures ReadFragments(s[0], s[1..]) == Behind(p[..|p| - FRAGMENT_MIN_SIZE], ReadContent(rest))
    decreases |p|
  {
    if |p| <= FRAGMENT_MIN_SIZE {
      LastMissing(p, rest, s);
    } else {
      var chunk, left := p[..FRAGMENT_MIN_SIZE], p[FRAGMENT_MIN_SIZE..];
      var tail := Fragments(left) + rest;
      LeftWhole(|p|);
      WholeRead(left, rest, tail);
      Associates(Frame(1, chunk), Fragments(left), rest);
      ChunkRead(chunk, tail, s);
      WholeStep(p, chunk, left, rest);
    }
  }

  lemma LeftWhole(n: nat)
    requires n % FRAGMENT_MIN_SIZE == 0 && n > FRAGMENT_MIN_SIZE
    ensures (n - FRAGMENT_MIN_SIZE) % FRAGMENT_MIN_SIZE == 0 && n >= 2 * FRAGMENT_MIN_SIZE
  {}

  lemma WholeStep(p: Bytes, chunk: Bytes, left: Bytes, rest: Bytes)
    requires |p| >= 2 * FRAGMENT_MIN_SIZE && chunk == p[..FRAGMENT_MIN_SIZE] && left == p[FRAGMENT_MIN_SIZE..]
    ensures Behind(chunk, Behind(left[..|left| - FRAGMENT_MIN_SIZE], ReadContent(rest))) ==
            Behind(p[..|p| - FRAGMENT_MIN_SIZE], ReadContent(rest))
  {
    BehindTwice(chunk, left[..|left| - FRAGMENT_MIN_SIZE], ReadContent(rest));
    CutAfter(p);
  }

  lemma LastMissing(p: Bytes, rest: Bytes, s: Bytes)
    requires |p| == FRAGMENT_MIN_SIZE && s == Fragments(p) + rest
    ensures s[0] == 3 && ReadFragments(3, s[1..]) == Behind(p[..0], ReadContent(rest))
  {
    FrameRead(3, p[..0], rest);
    BehindNothing(ReadContent(rest));
  }

  lemma CutAfter(p: Bytes)
    requires |p| >= 2 * FRAGMENT_MIN_SIZE
    ensures var left := p[FRAGMENT_MIN_SIZE..];
            p[..|p| - FRAGMENT_MIN_SIZE] == p[..FRAGMENT_MIN_SIZE] + left[..|left| - FRAGMENT_MIN_SIZE]
  {}

  lemma BehindNothing(r: Option<Read>)
    ensures Behind([], r) == r
  {
    if r.Some? {
      assert [] + r.value.content == r.value.content;
    }
  }

  lemma FourBytes(s: Bytes)
    requires |s| >= 4
    ensures FromBigEndian(s[..4]) == ((s[0] as nat * 256 + s[1] as nat) * 256 + s[2] as nat) * 256 + s[3] as nat
  {
    assert s[..4][..3] == s[..3] && s[..3][..2] == s[..2] && s[..2][..1] == s[..1] && s[..1][..0] == [];
    assert FromBigEndian(s[..1]) == s[0] as nat;
    assert FromBigEndian(s[..2]) == 256 * FromBigEndian(s[..1]) + s[1] as nat;
    assert FromBigEndian(s[..3]) == 256 * FromBigEndian(s[..2]) + s[2] as nat;
  }

  /** A length whose first byte is not zero is far above the fragment size. */
  lemma LongContent(s: Bytes)
    requires s != [] && s[0] != 0
    ensures ReadContent(s).Some? ==> |ReadContent(s).value.content| > FRAGMENT_MIN_SIZE
  {
    if |s| >= 4 {
      FourBytes(s);
    }
  }

  /** The head of a short packet's frame, taken for a length from its first byte on, is never the fragment size. */
  lemma ShortFrameMisread(p: Bytes, more: Bytes)
    requires 0 < |p| < FRAGMENT_MIN_SIZE
    ensures var r := ReadContent(Frame(0, p) + more);
            r.Some? ==> |r.value.content| != FRAGMENT_MIN_SIZE
  {
    var s := Frame(0, p) + more;
    HeadBytes(p, more);
    FourBytes(s);
    if |p| < 256 {
      LongContent(s[4..]);
    }
  }

  lemma HeadBytes(p: Bytes, more: Bytes)
    requires |p| < FRAGMENT_MIN_SIZE
    ensures var s := Frame(0, p) + more;
            s[0] == 0 && s[1] == 0 && s[2] == 0 && s[3] as nat == |p| / 256 && s[4] as nat == |p| % 256
  {
    var s, n := Frame(0, p) + more, |p|;
    assert forall i :: 0 <= i < 4 ==> s[i + 1] == BigEndian(n, 4)[i];
    assert BigEndian(n, 4)[3] as nat == n % 256 && BigEndian(n, 4)[..3] == BigEndian(n / 256, 3);
    assert BigEndian(n / 256, 3)[2] as nat == n / 256 && BigEndian(n / 256, 3)[..2] == BigEndian(0, 2);
    BigEndianZero(2);
    assert BigEndian(n, 4)[0] == BigEndian(n, 4)[..3][0] == BigEndian(n / 256, 3)[..2][0];
    assert BigEndian(n, 4)[1] == BigEndian(n, 4)[..3][1] == BigEndian(n / 256, 3)[..2][1];
    assert BigEndian(n, 4)[2] == BigEndian(n, 4)[..3][2];
  }

  /** Whatever packet follows, what is read in its place is not of the fragment size. */
  lemma FramesMisread(p: Bytes, more: Bytes)
    requires p != []
    ensures var r := ReadContent(Frames(p) + more);
            r.Some? ==> |r.value.content| != FRAGMENT_MIN_SIZE
  {
    if |p| < FRAGMENT_MIN_SIZE {
      ShortFrameMisread(p, more);
    } else {
      LongContent(Frames(p) + more);
    }
  }

  /** A packet that loses its last fragment, with another one behind it, is not read back. */
  lemma WholeNotReadBack(p: Bytes, next: Bytes, more: Bytes)
    requires p != [] && |p| % FRAGMENT_MIN_SIZE == 0 && next != []
    ensures var r := ReadPacket(Frames(p) + (Frames(next) + more));
            r.Some? ==> r.value.content != p
  {
    WholeRead(p, Frames(next) + more, Frames(p) + (Frames(next) + more));
    FramesMisread(next, more);
  }

  lemma {:induction false} ReadManyNonEmpty(count: nat, s: Bytes)
    ensures ReadMany(count, s).Some? ==>
              var (packets, rest) := ReadMany(count, s).value;
              |packets| == count && |rest| <= |s| && forall i :: 0 <= i < count ==> packets[i] != []
  {
    if count == 0 || s == [] || ReadPacket(s).None? {
    } else {
      ReadNonEmpty(s[0], s[1..]);
      ReadManyNonEmpty(count - 1, ReadPacket(s).value.rest);
    }
  }

  /** Packets written back to back are read back as they were, and exactly their bytes are used up, if and only if no
      length is a multiple of the fragment size. */
  lemma {:induction false} StreamRoundTrip(packets: seq<Bytes>, rest: Bytes)
    ensures ReadMany(|packets|, FramesAll(packets) + rest) == Some((packets, rest)) <==> AllSendable(packets)
  {
    if packets == [] {
      assert FramesAll(packets) + rest == rest;
    } else {
      var tail := FramesAll(packets[1..]) + rest;
      Associates(Frames(packets[0]), FramesAll(packets[1..]), rest);
      PacketRoundTrip(packets[0], tail);
      assert AllSendable(packets) <==> |packets[0]| % FRAGMENT_MIN_SIZE != 0 && AllSendable(packets[1..]);
      if |packets[0]| % FRAGMENT_MIN_SIZE != 0 {
        StreamRoundTrip(packets[1..], rest);
        FirstThenOthers(Frames(packets[0]) + tail, packets, tail, rest);
      } else {
        NotReadBack(packets, rest);
      }
    }
  }

  lemma FirstThenOthers(s: Bytes, packets: seq<Bytes>, tail: Bytes, rest: Bytes)
    requires packets != [] && ReadPacket(s) == Some(Read(packets[0], tail))
    ensures ReadMany(|packets|, s) == Some((packets, rest)) <==> ReadMany(|packets| - 1, tail) == Some((packets[1..], rest))
  {
    assert packets == [packets[0]] + packets[1..];
    var others := ReadMany(|packets| - 1, tail);
    if others.Some? {
      assert ([packets[0]] + others.value.0)[1..] == others.value.0;
    }
  }

  lemma NotReadBack(packets: seq<Bytes>, rest: Bytes)
    requires packets != [] && |packets[0]| % FRAGMENT_MIN_SIZE == 0
    ensures ReadMany(|packets|, Frames(packets[0]) + (FramesAll(packets[1..]) + rest)) != Some((packets, rest))
  {
    var p, tail := packets[0], FramesAll(packets[1..]) + rest;
    var s := Frames(p) + tail;
    ReadManyNonEmpty(|packets|, s);
    if p != [] {
      if |packets| == 1 {
        assert FramesAll(packets[1..]) == [] && tail == rest;
        FragmentsRead(p, rest, s);
        AtMostLeft(1, s);
      } else if packets[1] != [] {
        var more := FramesAll(packets[1..][1..]);
        Associates(Frames(packets[1]), more, rest);
        WholeNotReadBack(p, packets[1], more + rest);
        ContentComesFirst(|packets|, s);
      }
    }
  }

  lemma AtMostLeft(count: nat, s: Bytes)
    requires count > 0
    ensures ReadMany(count, s).Some? ==> ReadPacket(s).Some? && |ReadMany(count, s).value.1| <= |ReadPacket(s).value.rest|
  {
    if ReadPacket(s).Some? {
      ReadManyNonEmpty(count - 1, ReadPacket(s).value.rest);
    }
  }

  lemma ContentComesFirst(count: nat, s: Bytes)
    requires count > 0
    ensures ReadMany(count, s).Some? ==>
              ReadPacket(s).Some? && ReadMany(count, s).value.0 != [] && ReadMany(count, s).value.0[0] == ReadPacket(s).value.content
  {}

  /** The i-th fragment is the last exactly when no more than one fragment's worth is left. */
  lemma FragmentAt(size: nat, i: nat, nFragments: nat)
    requires nFragments == size / FRAGMENT_MIN_SIZE + (if size % FRAGMENT_MIN_SIZE == 0 then 0 else 1)
    requires i < nFragments && i * FRAGMENT_MIN_SIZE < size
    ensures i + 1 >= nFragments <==> size - i * FRAGMENT_MIN_SIZE <= FRAGMENT_MIN_SIZE
    ensures (size - i * FRAGMENT_MIN_SIZE) % FRAGMENT_MIN_SIZE == size % FRAGMENT_MIN_SIZE
  {}

  lemma SentOn(sent: Bytes, left: Bytes)
    ensures sent + Fragments(left) ==
            if |left| <= FRAGMENT_MIN_SIZE then sent + Frame(3, left[..|left| % FRAGMENT_MIN_SIZE])
            else sent + Frame(1, left[..FRAGMENT_MIN_SIZE]) + Fragments(left[FRAGMENT_MIN_SIZE..])
  {
    if |left| > FRAGMENT_MIN_SIZE {
      Associates(sent, Frame(1, left[..FRAGMENT_MIN_SIZE]), Fragments(left[FRAGMENT_MIN_SIZE..]));
    }
  }

  lemma Associates(a: Bytes, b: Bytes, c: Bytes)
    ensures a + (b + c) == a + b + c
  {}

  /** A connection: the bytes that have arrived, the bytes sent, and the kind of the frame being read. */
  class Connection {
    var incoming: Bytes
    var outgoing: Bytes
    var typePacketHeader: byte

    constructor (incoming: Bytes)
      ensures this.incoming == incoming && outgoing == []
    {
      this.incoming, outgoing, typePacketHeader := incoming, [], 0;
    }

    method SendFrame(kind: byte, content: Bytes)
      modifies this`outgoing
      ensures outgoing == old(outgoing) + Frame(kind, content)
    {
      var header := AppendToBuffer(|content|, 4, [kind]);
      outgoing := outgoing + (header + content);
    }

    /** Sends a packet, in fragments when it is long. */
    method WriteSync(packet: Bytes)
      modifies this`outgoing
      ensures outgoing == old(outgoing) + Frames(packet)
    {
      if |packet| < FRAGMENT_MIN_SIZE {
        SendFrame(0, packet);
      } else {
        FragmentPacketAndSend(packet);
      }
    }

    method FragmentPacketAndSend(packet: Bytes)
      requires |packet| >= FRAGMENT_MIN_SIZE
      modifies this`outgoing
      ensures outgoing == old(outgoing) + Fragments(packet)
    {
      var nFragments := |packet| / FRAGMENT_MIN_SIZE + if |packet| % FRAGMENT_MIN_SIZE == 0 then 0 else 1;
      var start := 0;
      ghost var whole := old(outgoing) + Fragments(packet);
      assert packet[0..] == packet;
      for i := 0 to nFragments
        invariant i < nFragments ==> start == i * FRAGMENT_MIN_SIZE < |packet|
        invariant if i < nFragments then outgoing + Fragments(packet[start..]) == whole else outgoing == whole
      {
        var lastPacket := i + 1 >= nFragments;
        var contentSize := if lastPacket then |packet| % FRAGMENT_MIN_SIZE else FRAGMENT_MIN_SIZE;
        ghost var left := packet[start..];
        FragmentAt(|packet|, i, nFragments);
        assert packet[start..start + contentSize] == left[..contentSize];
        SentOn(outgoing, left);
        SendFrame(if lastPacket then 3 else 1, packet[start..start + contentSize]);
        if !lastPacket {
          start := start + contentSize;
          assert left[FRAGMENT_MIN_SIZE..] == packet[start..];
        }
      }
    }

    /** Takes so many bytes off the stream; nothing when there are fewer. */
    method Receive(count: nat) returns (bytes: Option<Bytes>)
      modifies this`incoming
      ensures bytes.None? <==> |old(incoming)| < count
      ensures bytes.Some? ==> bytes.value == old(incoming)[..count] && incoming == old(incoming)[count..]
    {
      if |incoming| < count {
        return None;
      }
      bytes := Some(incoming[..count]);
      incoming := incoming[count..];
    }

    /** The result of a read agrees with what the stream held. */
    static predicate Agrees(expected: Option<Read>, result: Option<Bytes>, rest: Bytes) {
      if expected.None? then result.None? else result == Some(expected.value.content) && rest == expected.value.rest
    }

    method ReadPacketContent() returns (result: Option<Bytes>)
      modifies this`incoming
      ensures Agrees(ReadContent(old(incoming)), result, incoming)
      decreases |incoming|
    {
      var header := Receive(4);
      if header.None? {
        return None;
      }
      var length := ParseFromBuffer(header.value, 0, 4);
      ghost var s := old(incoming);
      assert header.value[0..4] == s[..4];
      if length == 0 {
        result := ReadPacketContent();
        return;
      }
      assert 4 + length <= |s| ==> s[4..][..length] == s[4..4 + length] && s[4..][length..] == s[4 + length..];
      result := Receive(length);
    }

    method ReadFragmentedPacket() returns (result: Option<Bytes>)
      modifies this`incoming, this`typePacketHeader
      ensures Agrees(ReadFragments(old(typePacketHeader), old(incoming)), result, incoming)
    {
      var read: Bytes := [];
      ghost var whole := ReadFragments(typePacketHeader, incoming);
      assert whole.Some? ==> [] + whole.value.content == whole.value.content;
      while true
        invariant whole == Behind(read, ReadFragments(typePacketHeader, incoming))
        decreases |incoming|
      {
        var content := ReadPacketContent();
        if content.None? {
          return None;
        }
        if IsLastFragment(typePacketHeader) {
          return Some(read + content.value);
        }
        var kind := Receive(1);
        if kind.None? {
          return None;
        }
        BehindTwice(read, content.value, ReadFragments(kind.value[0], incoming));
        typePacketHeader := kind.value[0];
        read := read + content.value;
      }
    }

    /** Reads one packet. */
    method ReadSync() returns (result: Option<Bytes>)
      modifies this`incoming, this`typePacketHeader
      ensures Agrees(ReadPacket(old(incoming)), result, incoming)
    {
      var kind := Receive(1);
      if kind.None? {
        return None;
      }
      typePacketHeader := kind.value[0];
      if IsFragment(typePacketHeader) {
        result := ReadFragmentedPacket();
      } else {
        result := ReadPacketContent();
      }
    }
  }

  /** A read with what was read before put in front. */
  function Behind(before: Bytes, r: Option<Read>): Option<Read> {
    if r.None? then None else Some(Read(before + r.value.content, r.value.rest))
  }

  lemma BehindTwice(a: Bytes, b: Bytes, r: Option<Read>)
    ensures Behind(a, Behind(b, r)) == Behind(a + b, r)
  {
    if r.Some? {
      assert a + (b + r.value.content) == a + b + r.value.content;
    }
  }

  /** An empty packet is never delivered: the reader takes what follows for its length. */
  lemma EmptyPacketIsSkipped(rest: Bytes)
    ensures ReadPacket(Frames([]) + rest) == ReadContent(rest)
  {
    var s := Frame(0, []) + rest;
    assert Frames([]) == Frame(0, []);
    assert ReadContent(s[1..]) == ReadContent(rest) && s[0] == 0 by { FrameRead(0, [], rest); }
  }

  // ---------------------------------------------------------------- layout

  /** Where the parts of a frame are: the kind, the length in four bytes, the content. */
  lemma FrameLayout(kind: byte, content: Bytes)
    ensures var b := Frame(kind, content);
            b[0] == kind && BytesAt(b, 1, BigEndian(|content|, 4)) && BytesAt(b, 5, content)
  {
    var length := BigEndian(|content|, 4);
    Middle([kind], length, content);
    Middle([kind] + length, content, []);
    assert [kind] + length + content + [] == [kind] + length + content;
  }

  /** Where the frames of a packet are. A short one is one frame of kind 0. Of a long one there is every 1029 bytes a
      frame of kind 1 with the next 1024 bytes, and at the end one of kind 3 with what is left over, which is nothing when
      the length is a multiple of 1024. */
  lemma PacketLayout(p: Bytes)
    ensures |p| < 1024 ==> Frames(p) == Frame(0, p)
    ensures |p| >= 1024 ==> forall i :: 0 <= i * 1024 < |p| ==> FragmentAtPlace(p, Frames(p), i)
  {
    if |p| >= 1024 {
      forall i | 0 <= i * 1024 < |p| ensures FragmentAtPlace(p, Frames(p), i) {
        FragmentLayout(p, i);
      }
    }
  }

  predicate FragmentAtPlace(p: Bytes, b: Bytes, i: nat)
    requires i * 1024 < |p|
  {
    if |p| - i * 1024 > 1024 then BytesAt(b, i * 1029, Frame(1, p[i * 1024..i * 1024 + 1024]))
    else BytesAt(b, i * 1029, Frame(3, p[i * 1024..i * 1024 + |p| % 1024])) && |b| == i * 1029 + 5 + |p| % 1024
  }

  lemma {:induction false} FragmentLayout(p: Bytes, i: nat)
    requires i * 1024 < |p|
    ensures FragmentAtPlace(p, Fragments(p), i)
    decreases |p|
  {
    if |p| <= 1024 {
    } else {
      var first, left := Frame(1, p[..1024]), p[1024..];
      if i == 0 {
        Middle([], first, Fragments(left));
        assert [] + first + Fragments(left) == Fragments(p);
      } else {
        FragmentLayout(left, i - 1);
        OnePlaceOn(p, i, first, Fragments(left));
      }
    }
  }

  lemma OnePlaceOn(p: Bytes, i: nat, first: Bytes, b: Bytes)
    requires |p| > 1024 && i > 0 && i * 1024 < |p| && |first| == 1029 && FragmentAtPlace(p[1024..], b, i - 1)
    ensures FragmentAtPlace(p, first + b, i)
  {
    var left := p[1024..];
    assert |left| % 1024 == |p| % 1024;
    if |left| - (i - 1) * 1024 > 1024 {
      PlacedOn(p, left, i, first, b, 1, 1024);
    } else {
      PlacedOn(p, left, i, first, b, 3, |p| % 1024);
    }
  }

  lemma PlacedOn(p: Bytes, left: Bytes, i: nat, first: Bytes, b: Bytes, kind: byte, n: nat)
    requires |p| > 1024 && left == p[1024..] && i > 0 && i * 1024 + n <= |p| && |first| == 1029
    requires BytesAt(b, (i - 1) * 1029, Frame(kind, left[(i - 1) * 1024..(i - 1) * 1024 + n]))
    ensures BytesAt(first + b, i * 1029, Frame(kind, p[i * 1024..i * 1024 + n]))
  {
    SameSlice(p, left, i, n);
    Further(first, b, (i - 1) * 1029, Frame(kind, left[(i - 1) * 1024..(i - 1) * 1024 + n]));
  }

  lemma SameSlice(p: Bytes, left: Bytes, i: nat, n: nat)
    requires |p| > 1024 && left == p[1024..] && i > 0 && i * 1024 + n <= |p|
    ensures left[(i - 1) * 1024..(i - 1) * 1024 + n] == p[i * 1024..i * 1024 + n]
  {}
}
