/** The text of the operation log: records of an operator byte, a timestamp, arguments and four bytes of padding. */
module LogCodec {
  import opened PutRule
  import opened Operations
  import opened ByteCodec

  /** Operator number and flags share a byte, so the number keeps six bits. */
  function FlaggedByte(value: nat, flag1: bool, flag2: bool): byte {
    ((4 * value + (if flag1 then 2 else 0) + (if flag2 then 1 else 0)) % 256) as byte
  }

  function ValueOf(b: byte): nat { b as nat / 4 }

  predicate Flag1(b: byte) { b as nat / 2 % 2 == 1 }

  predicate Flag2(b: byte) { b % 2 == 1 }

  lemma FlaggedByteRead(value: nat, flag1: bool, flag2: bool)
    ensures Flag1(FlaggedByte(value, flag1, flag2)) == flag1
    ensures Flag2(FlaggedByte(value, flag1, flag2)) == flag2
    ensures ValueOf(FlaggedByte(value, flag1, flag2)) == value % 64
  {}

  /** Values the record's fields can hold in memory. */
  predicate InRange(op: OperationBody) {
    op.operatorNumber < 256 && op.timestamp < TWO_64 && op.nodeId < 0x1_0000 &&
    (op.args.Some? ==> forall i :: 0 <= i < |op.args.value| ==> |op.args.value[i]| < TWO_32)
  }

  function ArgBytes(args: seq<Bytes>): Bytes {
    if args == [] then [] else BigEndian(|args[0]|, 4) + args[0] + ArgBytes(args[1..])
  }

  const PADDING: Bytes := [0, 0, 0, 0]

  function Head(op: OperationBody): (b: Bytes)
    ensures |b| == 9
  {
    [FlaggedByte(op.operatorNumber, op.flag1, op.flag2)] + BigEndian(op.timestamp, 8)
  }

  function Args(op: OperationBody): seq<Bytes> {
    if op.args.Some? then op.args.value else []
  }

  function Record(op: OperationBody): Bytes {
    Head(op) + ArgBytes(Args(op)) + PADDING
  }

  /** The argument loop counts in eight bits: it never ends on an argument of 256 bytes or more. */
  predicate Writable(op: OperationBody) {
    forall i :: 0 <= i < |Args(op)| ==> |Args(op)[i]| < 256
  }

  function Records(ops: seq<OperationBody>): Bytes {
    if ops == [] then [] else Record(ops[0]) + Records(ops[1..])
  }

  /** What serialising a list gives; nothing when it never ends. */
  function SerializeAll(ops: seq<OperationBody>): Option<Bytes> {
    if forall i :: 0 <= i < |ops| ==> Writable(ops[i]) then Some(Records(ops)) else None
  }

  /** Puts `first` before what was read after it, if that was read at all. */
  function Prepend<T>(first: seq<T>, more: Option<seq<T>>): Option<seq<T>> {
    if more.None? then None else Some(first + more.value)
  }

  lemma PrependTwice<T>(a: seq<T>, b: seq<T>, more: Option<seq<T>>)
    ensures Prepend(a, Prepend(b, more)) == Prepend(a + b, more) && Prepend([], more) == more
  {
    if more.Some? {
      assert a + (b + more.value) == a + b + more.value && [] + more.value == more.value;
    }
  }

  lemma PrependSame<T>(a: T, b: T, more: Option<seq<T>>, others: seq<T>)
    requires Prepend([a], more) == Some([b] + others)
    ensures a == b && more == Some(others)
  {
    assert ([a] + more.value)[0] == ([b] + others)[0];
    assert ([a] + more.value)[1..] == more.value && ([b] + others)[1..] == others;
  }

  /** Reads arguments up to one of length zero or to the end; nothing when it would read past the end. */
  function ParseArgs(b: Bytes): Option<seq<Bytes>>
    decreases |b|
  {
    if |b| <= 1 then Some([])
    else if |b| < 4 then None
    else
      var length := FromBigEndian(b[..4]);
      if length == 0 then Some([])
      else if |b| - 4 < length then None
      else Prepend([b[4..4 + length]], ParseArgs(b[4 + length..]))
  }

  /** Reads one operation from the start of a buffer. Node id 1 stands in when none is stored. */
  function ParseOperation(b: Bytes, includesNodeId: bool): Option<OperationBody> {
    var start := if includesNodeId then 11 else 9;
    if |b| < start || ParseU64(b[1..9]).None? then None
    else
      var nodeId := if includesNodeId then FromBigEndian(b[9..11]) else 1;
      var head := OperationBody(ValueOf(b[0]), Flag1(b[0]), Flag2(b[0]), None, ParseU64(b[1..9]).value, nodeId);
      if |b| == start + 1 then Some(head)
      else match ParseArgs(b[start..])
           case None => None
           case Some(args) => Some(head.(args := Some(args)))
  }

  function ArgsLength(args: seq<Bytes>): nat {
    if args == [] then 0 else 4 + |args[0]| + ArgsLength(args[1..])
  }

  function TotalLength(op: OperationBody): nat
    requires op.args.Some?
  {
    9 + ArgsLength(op.args.value)
  }

  /** How far the reader moves after an operation: its length and padding, in eight bits. */
  function Advance(op: OperationBody): nat
    requires op.args.Some?
  {
    (TotalLength(op) + 4) % 256
  }

  /** What is left of the buffer after the step over an operation. */
  function After(op: OperationBody, b: Bytes): Bytes
    requires op.args.Some?
  {
    if Advance(op) < |b| then b[Advance(op)..] else []
  }

  /** The operation at the front of a log, if the reader gets past it. */
  function First(b: Bytes): (r: Option<OperationBody>)
    ensures r.Some? ==> r.value.args.Some? && Advance(r.value) != 0
  {
    var r := ParseOperation(b, false);
    if r.None? || r.value.args.None? || Advance(r.value) == 0 then None else r
  }

  /** Reads a whole log; nothing when the reader leaves the buffer, meets an operation without arguments, or
      stops moving. */
  function DeserializeAll(b: Bytes): Option<seq<OperationBody>>
    decreases |b|
  {
    if b == [] then Some([])
    else match First(b)
         case None => None
         case Some(op) => Prepend([op], DeserializeAll(After(op, b)))
  }

  /** An operation as the log gives it back. */
  function Stripped(op: OperationBody): OperationBody {
    op.(nodeId := 1)
  }

  function StrippedAll(ops: seq<OperationBody>): seq<OperationBody> {
    if ops == [] then [] else [Stripped(ops[0])] + StrippedAll(ops[1..])
  }

  predicate NonEmptyArgs(args: seq<Bytes>) {
    forall i :: 0 <= i < |args| ==> args[i] != []
  }

  /** The fields of an operation that survive the trip. */
  predicate Readable(op: OperationBody) {
    op.operatorNumber < 64 && op.timestamp < TWO_31 && op.args.Some? && NonEmptyArgs(op.args.value)
  }

  /** The operations the log can store: readable fields, and a record of at most 255 bytes. */
  predicate Storable(op: OperationBody) {
    Readable(op) && TotalLength(op) + 4 <= 255
  }

  predicate AllStorable(ops: seq<OperationBody>) {
    forall i :: 0 <= i < |ops| ==> Storable(ops[i])
  }

  predicate AllInRange(ops: seq<OperationBody>) {
    forall i :: 0 <= i < |ops| ==> InRange(ops[i])
  }

  lemma {:induction false} ArgBytesLength(args: seq<Bytes>)
    ensures |ArgBytes(args)| == ArgsLength(args)
  {
    if args == [] {
    } else {
      ArgBytesLength(args[1..]);
    }
  }

  predicate ShortArgs(args: seq<Bytes>) {
    forall i :: 0 <= i < |args| ==> |args[i]| < TWO_32
  }

  /** Where reading the arguments may stop: at padding, or at the end. */
  predicate Stop(rest: Bytes) {
    rest == [] || (|rest| >= 4 && rest[..4] == PADDING)
  }

  lemma StopsArgs(rest: Bytes)
    requires Stop(rest)
    ensures ParseArgs(rest) == Some([])
  {
    if rest != [] {
      assert FromBigEndian(PADDING) == 0 by {
        BigEndianZero(4);
        assert PADDING == BigEndian(0, 4);
        Pow256Values();
        BigEndianRoundTrip(0, 4);
      }
    }
  }

  /** Reading arguments stops at the first empty one. */
  function UpToEmpty(args: seq<Bytes>): seq<Bytes> {
    if args == [] || args[0] == [] then [] else [args[0]] + UpToEmpty(args[1..])
  }

  lemma {:induction false} UpToEmptyIsAll(args: seq<Bytes>)
    ensures |UpToEmpty(args)| <= |args|
    ensures UpToEmpty(args) == args <==> NonEmptyArgs(args)
  {
    if args == [] || args[0] == [] {
    } else {
      UpToEmptyIsAll(args[1..]);
      assert args == [args[0]] + args[1..];
      assert NonEmptyArgs(args) <==> NonEmptyArgs(args[1..]) by {
        assert forall i :: 0 <= i < |args[1..]| ==> args[1..][i] == args[i + 1];
        assert NonEmptyArgs(args[1..]) ==> forall i :: 1 <= i < |args| ==> args[1..][i - 1] == args[i];
      }
    }
  }

  lemma {:induction false} ParseArgBytes(args: seq<Bytes>, rest: Bytes)
    requires ShortArgs(args) && Stop(rest)
    ensures ParseArgs(ArgBytes(args) + rest) == Some(UpToEmpty(args))
  {
    if args == [] {
      assert ArgBytes(args) + rest == rest;
      StopsArgs(rest);
    } else {
      var b := ArgBytes(args) + rest;
      var tail := ArgBytes(args[1..]) + rest;
      assert b == BigEndian(|args[0]|, 4) + args[0] + tail;
      ArgAtFront(args[0], tail, b);
      if args[0] != [] {
        ParseArgBytes(args[1..], rest);
      }
    }
  }

  lemma ArgAtFront(arg: Bytes, tail: Bytes, b: Bytes)
    requires |arg| < TWO_32 && b == BigEndian(|arg|, 4) + arg + tail
    ensures |b| >= 4 && FromBigEndian(b[..4]) == |arg| && b[4..4 + |arg|] == arg && b[4 + |arg|..] == tail
  {
    Pow256Values();
    BigEndianRoundTrip(|arg|, 4);
    assert b[..4] == BigEndian(|arg|, 4);
  }

  lemma HeadRead(op: OperationBody)
    requires InRange(op)
    ensures ValueOf(Head(op)[0]) == op.operatorNumber % 64 && Flag1(Head(op)[0]) == op.flag1 && Flag2(Head(op)[0]) == op.flag2
    ensures ParseU64(Head(op)[1..]) == Some(op.timestamp) <==> op.timestamp < TWO_31
  {
    FlaggedByteRead(op.operatorNumber, op.flag1, op.flag2);
    U64RoundTrip(op.timestamp);
    assert Head(op)[1..] == BigEndian(op.timestamp, 8);
  }

  /** A record at the front of a buffer is read back, but for its node id, exactly when its fields are readable. */
  lemma ParseRecord(op: OperationBody, rest: Bytes)
    requires InRange(op)
    ensures ParseOperation(Record(op) + rest, false) == Some(Stripped(op)) <==> Readable(op)
  {
    var b := Record(op) + rest;
    assert b[0] == Head(op)[0] && b[1..9] == Head(op)[1..];
    HeadRead(op);
    assert b[9..] == ArgBytes(Args(op)) + (PADDING + rest);
    assert (PADDING + rest)[..4] == PADDING;
    ParseArgBytes(Args(op), PADDING + rest);
    UpToEmptyIsAll(Args(op));
  }

  function RecordLength(op: OperationBody): nat {
    13 + ArgsLength(Args(op))
  }

  lemma RecordHasLength(op: OperationBody)
    ensures |Record(op)| == RecordLength(op)
  {
    ArgBytesLength(Args(op));
  }

  lemma {:induction false} StorableRoundTrip(ops: seq<OperationBody>)
    requires AllInRange(ops) && AllStorable(ops)
    ensures DeserializeAll(Records(ops)) == Some(StrippedAll(ops))
  {
    if ops == [] {
    } else {
      var rest := Records(ops[1..]);
      assert Storable(ops[0]) && InRange(ops[0]);
      ParseRecord(ops[0], rest);
      AfterRecord(ops[0], rest);
      RecordHasLength(ops[0]);
      StorableRoundTrip(ops[1..]);
    }
  }

  predicate AllWithArgs(ops: seq<OperationBody>) {
    forall i :: 0 <= i < |ops| ==> ops[i].args.Some?
  }

  function TotalAdvance(ops: seq<OperationBody>): nat
    requires AllWithArgs(ops)
  {
    if ops == [] then 0 else Advance(ops[0]) + TotalAdvance(ops[1..])
  }

  /** The reader stops only once it has moved over the whole buffer. */
  lemma {:induction false} ReaderCovers(b: Bytes)
    requires DeserializeAll(b).Some?
    ensures AllWithArgs(DeserializeAll(b).value) && TotalAdvance(DeserializeAll(b).value) >= |b|
    decreases |b|
  {
    if b == [] {
    } else {
      var op := First(b).value;
      var rest := After(op, b);
      ReaderCovers(rest);
      assert ([op] + DeserializeAll(rest).value)[1..] == DeserializeAll(rest).value;
    }
  }

  lemma {:induction false} StrippedAt(ops: seq<OperationBody>)
    ensures |StrippedAll(ops)| == |ops| && forall i :: 0 <= i < |ops| ==> StrippedAll(ops)[i] == Stripped(ops[i])
  {
    if ops == [] {
    } else {
      StrippedAt(ops[1..]);
    }
  }

  /** Moving over all records in eight-bit steps takes records that fit eight bits. */
  lemma {:induction false} CoverForcesShort(ops: seq<OperationBody>)
    requires AllWithArgs(ops) && AllWithArgs(StrippedAll(ops))
    ensures TotalAdvance(StrippedAll(ops)) <= |Records(ops)|
    ensures TotalAdvance(StrippedAll(ops)) == |Records(ops)| ==> forall i :: 0 <= i < |ops| ==> RecordLength(ops[i]) <= 255
  {
    StrippedAt(ops);
    if ops == [] {
    } else {
      assert StrippedAll(ops)[1..] == StrippedAll(ops[1..]);
      CoverForcesShort(ops[1..]);
      RecordHasLength(ops[0]);
      assert Advance(StrippedAll(ops)[0]) == RecordLength(ops[0]) % 256 <= RecordLength(ops[0]);
      assert |Records(ops)| == RecordLength(ops[0]) + |Records(ops[1..])|;
      assert forall i :: 1 <= i < |ops| ==> ops[i] == ops[1..][i - 1];
    }
  }

  lemma ReadFirst(b: Bytes, op: OperationBody, others: seq<OperationBody>)
    requires b != [] && DeserializeAll(b) == Some([op] + others)
    ensures ParseOperation(b, false) == Some(op) && op.args.Some? && DeserializeAll(After(op, b)) == Some(others)
  {
    var first := First(b).value;
    PrependSame(first, op, DeserializeAll(After(first, b)), others);
  }

  lemma AfterRecord(op: OperationBody, rest: Bytes)
    requires op.args.Some? && RecordLength(op) <= 255
    ensures After(Stripped(op), Record(op) + rest) == rest
  {
    RecordHasLength(op);
    var record := Record(op);
    assert Advance(Stripped(op)) == |record|;
    assert (record + rest)[|record|..] == rest;
  }

  lemma FirstReadBack(op: OperationBody, rest: Bytes, b: Bytes, others: seq<OperationBody>)
    requires InRange(op) && RecordLength(op) <= 255 && b == Record(op) + rest && b != []
    requires DeserializeAll(b) == Some([Stripped(op)] + others)
    ensures Readable(op) && DeserializeAll(rest) == Some(others)
  {
    ReadFirst(b, Stripped(op), others);
    ParseRecord(op, rest);
    AfterRecord(op, rest);
  }

  lemma {:induction false} ReadBackIsReadable(ops: seq<OperationBody>)
    requires AllInRange(ops) && forall i :: 0 <= i < |ops| ==> RecordLength(ops[i]) <= 255
    requires DeserializeAll(Records(ops)) == Some(StrippedAll(ops))
    ensures forall i :: 0 <= i < |ops| ==> Readable(ops[i])
  {
    if ops == [] {
    } else {
      RecordHasLength(ops[0]);
      FirstReadBack(ops[0], Records(ops[1..]), Records(ops), StrippedAll(ops[1..]));
      ReadBackIsReadable(ops[1..]);
      assert forall i :: 1 <= i < |ops| ==> ops[i] == ops[1..][i - 1];
    }
  }

  lemma {:induction false} ArgWithinLength(args: seq<Bytes>, i: nat)
    requires i < |args|
    ensures |args[i]| < ArgsLength(args)
  {
    if i == 0 {
    } else {
      ArgWithinLength(args[1..], i - 1);
    }
  }

  predicate RoundTrips(ops: seq<OperationBody>) {
    SerializeAll(ops).Some? && DeserializeAll(SerializeAll(ops).value) == Some(StrippedAll(ops))
  }

  /** A log of any length is read back as it was written, node ids apart, if and only if all its operations are
      storable. */
  lemma LogRoundTrip(ops: seq<OperationBody>)
    requires AllInRange(ops)
    ensures RoundTrips(ops) <==> AllStorable(ops)
  {
    if AllStorable(ops) {
      forall i | 0 <= i < |ops| ensures Writable(ops[i]) {
        assert Storable(ops[i]);
        forall j | 0 <= j < |Args(ops[i])| ensures |Args(ops[i])[j]| < 256 {
          ArgWithinLength(Args(ops[i]), j);
        }
      }
      StorableRoundTrip(ops);
    } else if RoundTrips(ops) {
      ReaderCovers(Records(ops));
      StrippedAt(ops);
      CoverForcesShort(ops);
      ReadBackIsReadable(ops);
    }
  }

  /** Serialising distributes over append, so records can be added to a file one batch at a time. */
  lemma {:induction false} RecordsAppend(a: seq<OperationBody>, b: seq<OperationBody>)
    ensures Records(a + b) == Records(a) + Records(b)
  {
    if a == [] {
      assert a + b == b;
    } else {
      assert (a + b)[1..] == a[1..] + b;
      RecordsAppend(a[1..], b);
    }
  }

  method AppendArg(buffer: Bytes, arg: Bytes) returns (out: Bytes)
    ensures out == buffer + (BigEndian(|arg|, 4) + arg)
  {
    out := AppendToBuffer(|arg|, 4, buffer);
    for j := 0 to |arg|
      invariant out == buffer + (BigEndian(|arg|, 4) + arg[..j])
    {
      out := out + [arg[j]];
      assert arg[..j + 1] == arg[..j] + [arg[j]];
    }
    assert arg[..|arg|] == arg;
  }

  method WritePadding(buffer: Bytes) returns (out: Bytes)
    ensures out == buffer + PADDING
  {
    out := buffer;
    for i := 0 to 4
      invariant out == buffer + PADDING[..i]
    {
      out := out + [0];
    }
  }

  method AppendArgs(buffer: Bytes, args: seq<Bytes>) returns (out: Option<Bytes>)
    ensures out == if forall i :: 0 <= i < |args| ==> |args[i]| < 256 then Some(buffer + ArgBytes(args)) else None
  {
    var b := buffer;
    for i := 0 to |args|
      invariant forall k :: 0 <= k < i ==> |args[k]| < 256
      invariant b == buffer + ArgBytes(args[..i])
    {
      if |args[i]| >= 256 {
        return None;
      }
      ghost var text := BigEndian(|args[i]|, 4) + args[i];
      b := AppendArg(b, args[i]);
      assert b == buffer + (ArgBytes(args[..i]) + text);
      assert ArgBytes(args[..i + 1]) == ArgBytes(args[..i]) + text by {
        ArgBytesLast(args[..i], args[i]);
        assert args[..i + 1] == args[..i] + [args[i]];
      }
    }
    assert args[..|args|] == args;
    out := Some(b);
  }

  /** Appends one record, argument by argument and byte by byte. */
  method Serialize(buffer: Bytes, op: OperationBody) returns (out: Option<Bytes>)
    ensures out == if Writable(op) then Some(buffer + Record(op)) else None
  {
    var head := buffer + [FlaggedByte(op.operatorNumber, op.flag1, op.flag2)];
    head := AppendToBuffer(op.timestamp, 8, head);
    assert head == buffer + Head(op);
    var b := AppendArgs(head, Args(op));
    if b.None? {
      return None;
    }
    var padded := WritePadding(b.value);
    assert padded == buffer + Record(op);
    out := Some(padded);
  }

  lemma {:induction false} ArgBytesLast(args: seq<Bytes>, arg: Bytes)
    ensures ArgBytes(args + [arg]) == ArgBytes(args) + (BigEndian(|arg|, 4) + arg)
  {
    if args == [] {
      assert [arg][1..] == [] && args + [arg] == [arg];
    } else {
      ArgBytesLast(args[1..], arg);
      assert (args + [arg])[1..] == args[1..] + [arg];
    }
  }

  method SerializeEach(ops: seq<OperationBody>) returns (out: Option<Bytes>)
    ensures out == SerializeAll(ops)
  {
    var b: Bytes := [];
    for i := 0 to |ops|
      invariant forall k :: 0 <= k < i ==> Writable(ops[k])
      invariant b == Records(ops[..i])
    {
      var next := Serialize(b, ops[i]);
      if next.None? {
        return None;
      }
      b := next.value;
      RecordsAppend(ops[..i], [ops[i]]);
      assert [ops[i]][1..] == [] && ops[..i + 1] == ops[..i] + [ops[i]];
    }
    assert ops[..|ops|] == ops;
    out := Some(b);
  }

  /** Reads the arguments from `position` on. */
  method ReadArgs(buffer: Bytes, start: nat) returns (out: Option<seq<Bytes>>)
    requires start <= |buffer|
    ensures out == ParseArgs(buffer[start..])
  {
    var position, args := start, [];
    PrependTwice(args, args, ParseArgs(buffer[start..]));
    while position + 1 < |buffer|
      invariant start <= position <= |buffer|
      invariant ParseArgs(buffer[start..]) == Prepend(args, ParseArgs(buffer[position..]))
      decreases |buffer| - position
    {
      if |buffer| < position + 4 {
        return None;
      }
      var length := ParseFromBuffer(buffer, position, 4);
      assert buffer[position..][..4] == buffer[position..position + 4];
      position := position + 4;
      if length == 0 {
        assert args + [] == args;
        return Some(args);
      }
      if |buffer| < position + length {
        return None;
      }
      assert buffer[position - 4..][4..4 + length] == buffer[position..position + length];
      assert buffer[position - 4..][4 + length..] == buffer[position + length..];
      PrependTwice(args, [buffer[position..position + length]], ParseArgs(buffer[position + length..]));
      args := args + [buffer[position..position + length]];
      position := position + length;
    }
    assert args + [] == args;
    out := Some(args);
  }

  function From(bytes: Bytes, position: nat): Bytes {
    if position < |bytes| then bytes[position..] else []
  }

  method DeserializeNext(bytes: Bytes, position: nat) returns (op: Option<OperationBody>)
    requires position < |bytes|
    ensures op == First(From(bytes, position))
  {
    op := DeserializeOperation(bytes, position, false);
    if op.None? || op.value.args.None? || Advance(op.value) == 0 {
      return None;
    }
  }

  lemma StepOver(bytes: Bytes, position: nat, op: OperationBody, logs: seq<OperationBody>)
    requires position < |bytes| && First(From(bytes, position)) == Some(op)
    ensures Outlook(bytes, position, logs) == Outlook(bytes, position + Advance(op), logs + [op])
  {
    var b := From(bytes, position);
    assert After(op, b) == From(bytes, position + Advance(op));
    PrependTwice(logs, [op], DeserializeAll(After(op, b)));
  }

  /** What a reader at a position, with some operations read, will have read in the end. */
  function Outlook(bytes: Bytes, position: nat, logs: seq<OperationBody>): Option<seq<OperationBody>> {
    Prepend(logs, DeserializeAll(From(bytes, position)))
  }

  lemma OutlookEnds(bytes: Bytes, position: nat, logs: seq<OperationBody>)
    ensures Outlook(bytes, 0, []) == DeserializeAll(bytes)
    ensures position >= |bytes| ==> Outlook(bytes, position, logs) == Some(logs)
    ensures position < |bytes| && First(From(bytes, position)).None? ==> Outlook(bytes, position, logs) == None
  {
    assert From(bytes, 0) == bytes;
    PrependTwice([], [], DeserializeAll(bytes));
    assert logs + [] == logs;
  }

  method DeserializeEach(bytes: Bytes) returns (out: Option<seq<OperationBody>>)
    ensures out == DeserializeAll(bytes)
  {
    var position, logs := 0, [];
    OutlookEnds(bytes, position, logs);
    while position < |bytes|
      invariant Outlook(bytes, position, logs) == DeserializeAll(bytes)
      decreases |bytes| - position
    {
      var op := DeserializeNext(bytes, position);
      OutlookEnds(bytes, position, logs);
      if op.None? {
        return None;
      }
      StepOver(bytes, position, op.value, logs);
      logs := logs + [op.value];
      position := position + Advance(op.value);
    }
    OutlookEnds(bytes, position, logs);
    out := Some(logs);
  }

  method DeserializeOperation(buffer: Bytes, position: nat, includesNodeId: bool) returns (out: Option<OperationBody>)
    requires position <= |buffer|
    ensures out == ParseOperation(buffer[position..], includesNodeId)
  {
    var next := position + if includesNodeId then 11 else 9;
    if |buffer| < next {
      return None;
    }
    ghost var b := buffer[position..];
    assert b[1..9] == buffer[position + 1..position + 9];
    var timestamp := ParseU64(buffer[position + 1..position + 9]);
    if timestamp.None? {
      return None;
    }
    var nodeId := 1;
    if includesNodeId {
      nodeId := ParseFromBuffer(buffer, position + 9, 2);
      assert b[9..11] == buffer[position + 9..position + 11];
    }
    var first := buffer[position];
    var head := OperationBody(ValueOf(first), Flag1(first), Flag2(first), None, timestamp.value, nodeId);
    if next == |buffer| - 1 {
      return Some(head);
    }
    var args := ReadArgs(buffer, next);
    assert buffer[next..] == b[next - position..];
    out := if args.None? then None else Some(head.(args := args));
  }

  /** A timestamp of 2^31 is written and not read back. */
  lemma LargeTimestampIsLost(op: OperationBody)
    requires op == OperationBody(DEL, false, false, Some([[7]]), TWO_31, 1)
    ensures InRange(op) && SerializeAll([op]).Some? && !RoundTrips([op])
  {
    assert !AllStorable([op]) by {
      assert !Readable([op][0]);
    }
    LogRoundTrip([op]);
  }

  // ---------------------------------------------------------------- layout

  /** Where the i-th argument starts. */
  function ArgStart(args: seq<Bytes>, i: nat): nat
    requires i <= |args|
  {
    if i == 0 then 0 else ArgStart(args, i - 1) + 4 + |args[i - 1]|
  }

  /** Each argument is its length in four bytes and its content, one after another. */
  lemma ArgLayout(args: seq<Bytes>, i: nat)
    requires i < |args|
    ensures var b, at := ArgBytes(args), ArgStart(args, i);
            BytesAt(b, at, BigEndian(|args[i]|, 4)) && BytesAt(b, at + 4, args[i])
  {
    ArgsSplit(args, i);
    ArgsBefore(args, i);
    var before, after := ArgBytes(args[..i]), ArgBytes(args[i + 1..]);
    var length := BigEndian(|args[i]|, 4);
    Middle(before, length, args[i] + after);
    Middle(before + length, args[i], after);
    Regroups(before + length, args[i], after);
  }

  lemma {:induction false} ArgsSplit(args: seq<Bytes>, i: nat)
    requires i < |args|
    ensures ArgBytes(args) == ArgBytes(args[..i]) + BigEndian(|args[i]|, 4) + (args[i] + ArgBytes(args[i + 1..]))
  {
    if i == 0 {
      assert args[..0] == [];
    } else {
      ArgsSplit(args[1..], i - 1);
      assert args[..i][0] == args[0] && args[..i][1..] == args[1..][..i - 1];
      assert args[1..][i - 1] == args[i] && args[1..][i..] == args[i + 1..];
    }
  }

  lemma {:induction false} ArgsBefore(args: seq<Bytes>, i: nat)
    requires i <= |args|
    ensures |ArgBytes(args[..i])| == ArgStart(args, i)
  {
    if i == 0 {
      assert args[..0] == [];
    } else {
      ArgsBefore(args, i - 1);
      assert args[..i] == args[..i - 1] + [args[i - 1]];
      ArgBytesLast(args[..i - 1], args[i - 1]);
    }
  }

  /** The byte that a number and two flags share. */
  lemma FlagLayout(n: nat, flag1: bool, flag2: bool)
    requires n < 64
    ensures FlaggedByte(n, flag1, flag2) as nat == 4 * n + (if flag1 then 2 else 0) + (if flag2 then 1 else 0)
  {}

  /** Where every byte of a record is: number and flags in the first, the timestamp in eight, the arguments, and four
      zeros. */
  lemma RecordLayout(op: OperationBody)
    ensures var b, args := Record(op), Args(op);
            && |b| == 9 + ArgStart(args, |args|) + 4
            && b[0] == FlaggedByte(op.operatorNumber, op.flag1, op.flag2)
            && BytesAt(b, 1, BigEndian(op.timestamp, 8))
            && BytesAt(b, 9, ArgBytes(args)) && BytesAt(b, |b| - 4, [0, 0, 0, 0])
  {
    var args := Args(op);
    ArgsBefore(args, |args|);
    assert args[..|args|] == args;
    var first, stamp, all := [FlaggedByte(op.operatorNumber, op.flag1, op.flag2)], BigEndian(op.timestamp, 8), ArgBytes(args);
    Middle(first, stamp, all + PADDING);
    Middle(first + stamp, all, PADDING);
    Middle(first + stamp + all, PADDING, []);
    Regroups(first + stamp, all, PADDING);
    assert first + stamp + all + PADDING + [] == first + stamp + all + PADDING;
  }
}
