/** Requests on the wire: a request number, an authentication key and an operation. */
module RequestCodec {
  import opened PutRule
  import opened Operations
  import opened ByteCodec
  import opened LogCodec

  datatype Request = Request(requestNumber: nat, authKey: Bytes, authFlag1: bool, authFlag2: bool, operation: OperationBody)

  /** Values the request's fields can hold in memory. */
  predicate InMemory(r: Request) {
    r.requestNumber < TWO_32 && InRange(r.operation)
  }

  function NodeIdBytes(r: Request): Bytes {
    if r.authFlag1 then BigEndian(r.operation.nodeId, 2) else []
  }

  function Front(r: Request): (b: Bytes)
    ensures |b| == 5 + |r.authKey|
  {
    BigEndian(r.requestNumber, 4) + [FlaggedByte(|r.authKey|, r.authFlag1, r.authFlag2)] + r.authKey
  }

  function Body(r: Request): Bytes {
    Head(r.operation) + NodeIdBytes(r) + ArgBytes(Args(r.operation))
  }

  /** Nothing is written for an operation without arguments: the writer would follow a null pointer. */
  function RequestBytes(r: Request): Option<Bytes> {
    if r.operation.args.Some? then Some(Front(r) + Body(r)) else None
  }

  method SerializeRequest(r: Request) returns (out: Option<Bytes>)
    ensures out == RequestBytes(r)
  {
    if r.operation.args.None? {
      return None;
    }
    var b: Bytes := AppendToBuffer(r.requestNumber, 4, []);
    b := b + [FlaggedByte(|r.authKey|, r.authFlag1, r.authFlag2)] + r.authKey;
    ghost var front := b;
    assert front == Front(r);
    b := b + [FlaggedByte(r.operation.operatorNumber, r.operation.flag1, r.operation.flag2)];
    b := AppendToBuffer(r.operation.timestamp, 8, b);
    assert b == front + Head(r.operation);
    if r.authFlag1 {
      b := AppendToBuffer(r.operation.nodeId, 2, b);
    }
    ghost var head := Head(r.operation) + NodeIdBytes(r);
    assert b == front + head;
    var args := r.operation.args.value;
    for i := 0 to |args|
      invariant b == front + (head + ArgBytes(args[..i]))
    {
      ArgBytesLast(args[..i], args[i]);
      assert args[..i + 1] == args[..i] + [args[i]];
      b := AppendArg(b, args[i]);
    }
    assert args[..|args|] == args;
    out := Some(b);
  }

  /** Reads a request; nothing when a field lies past the end. */
  function ParseRequest(b: Bytes): Option<Request> {
    if |b| < 5 || |b| < 5 + ValueOf(b[4]) then None
    else
      var body := 5 + ValueOf(b[4]);
      match ParseOperation(b[body..], Flag1(b[4]))
      case None => None
      case Some(op) => Some(Request(FromBigEndian(b[..4]), b[5..body], Flag1(b[4]), Flag2(b[4]), op))
  }

  method DeserializeRequest(b: Bytes) returns (out: Option<Request>)
    ensures out == ParseRequest(b)
  {
    if |b| < 5 || |b| < 5 + ValueOf(b[4]) {
      return None;
    }
    var requestNumber := ParseFromBuffer(b, 0, 4);
    var authLength := ValueOf(b[4]);
    var authKey := Fill(b, 5, 5 + authLength);
    var op := DeserializeOperation(b, 5 + authLength, Flag1(b[4]));
    assert b[0..4] == b[..4];
    out := if op.None? then None else Some(Request(requestNumber, authKey, Flag1(b[4]), Flag2(b[4]), op.value));
  }

  method Fill(buffer: Bytes, initialPos: nat, endPos: nat) returns (filled: Bytes)
    requires initialPos <= endPos <= |buffer|
    ensures filled == buffer[initialPos..endPos]
  {
    filled := [];
    for i := initialPos to endPos
      invariant filled == buffer[initialPos..i]
    {
      filled := filled + [buffer[i]];
    }
  }

  /** The requests that survive the trip. */
  predicate Transmittable(r: Request) {
    |r.authKey| < 64 && Readable(r.operation) && (r.authFlag1 || r.operation.nodeId == 1)
  }

  /** Reading an operation whose parts are known. */
  lemma ParseParts(op: OperationBody, includesNodeId: bool, b: Bytes, start: nat)
    requires op.args.Some? && start == (if includesNodeId then 11 else 9) && |b| >= start && |b| != start + 1
    requires ValueOf(b[0]) == op.operatorNumber % 64 && Flag1(b[0]) == op.flag1 && Flag2(b[0]) == op.flag2
    requires ParseU64(b[1..9]) == Some(op.timestamp) <==> op.timestamp < TWO_31
    requires ParseArgs(b[start..]) == Some(UpToEmpty(op.args.value))
    requires includesNodeId ==> FromBigEndian(b[9..11]) == op.nodeId
    ensures ParseOperation(b, includesNodeId) == Some(if includesNodeId then op else Stripped(op)) <==> Readable(op)
  {
    UpToEmptyIsAll(op.args.value);
  }

  lemma ParseBody(r: Request)
    requires InMemory(r) && r.operation.args.Some?
    ensures ParseOperation(Body(r), r.authFlag1) == Some(if r.authFlag1 then r.operation else Stripped(r.operation)) <==>
            Readable(r.operation)
  {
    var op, b := r.operation, Body(r);
    Parts(Head(op), NodeIdBytes(r), ArgBytes(Args(op)), b);
    HeadRead(op);
    ArgsRead(op);
    if r.authFlag1 {
      NodeIdRead(r);
    }
    ParseParts(op, r.authFlag1, b, 9 + |NodeIdBytes(r)|);
  }

  lemma ArgsRead(op: OperationBody)
    requires InRange(op) && op.args.Some?
    ensures ParseArgs(ArgBytes(Args(op))) == Some(UpToEmpty(op.args.value)) && |ArgBytes(Args(op))| != 1
  {
    ParseArgBytes(Args(op), []);
    assert ArgBytes(Args(op)) + [] == ArgBytes(Args(op));
    ArgBytesLength(Args(op));
  }

  lemma Parts(head: Bytes, middle: Bytes, tail: Bytes, b: Bytes)
    requires |head| == 9 && b == head + middle + tail
    ensures b[0] == head[0] && b[1..9] == head[1..] && b[9..9 + |middle|] == middle && b[9 + |middle|..] == tail
  {}

  lemma NodeIdRead(r: Request)
    requires InMemory(r) && r.authFlag1
    ensures FromBigEndian(NodeIdBytes(r)) == r.operation.nodeId
  {
    Pow256Values();
    BigEndianRoundTrip(r.operation.nodeId, 2);
  }

  lemma FrontRead(r: Request, b: Bytes)
    requires InMemory(r) && b == Front(r) + Body(r)
    ensures FromBigEndian(b[..4]) == r.requestNumber && b[4] == FlaggedByte(|r.authKey|, r.authFlag1, r.authFlag2)
    ensures b[5..5 + |r.authKey|] == r.authKey && b[5 + |r.authKey|..] == Body(r)
    ensures Flag1(b[4]) == r.authFlag1 && Flag2(b[4]) == r.authFlag2 && ValueOf(b[4]) == |r.authKey| % 64
  {
    Pow256Values();
    BigEndianRoundTrip(r.requestNumber, 4);
    assert b[..4] == BigEndian(r.requestNumber, 4);
    FlaggedByteRead(|r.authKey|, r.authFlag1, r.authFlag2);
  }

  lemma NodeIdDefaults(b: Bytes)
    ensures ParseOperation(b, false).Some? ==> ParseOperation(b, false).value.nodeId == 1
  {}

  lemma RequestRead(r: Request, b: Bytes, body: Bytes)
    requires |b| == 5 + |r.authKey| + |body| && FromBigEndian(b[..4]) == r.requestNumber
    requires Flag1(b[4]) == r.authFlag1 && Flag2(b[4]) == r.authFlag2 && ValueOf(b[4]) == |r.authKey| % 64
    requires b[5..5 + |r.authKey|] == r.authKey && b[5 + |r.authKey|..] == body
    requires ParseOperation(body, r.authFlag1) == Some(if r.authFlag1 then r.operation else Stripped(r.operation)) <==>
             Readable(r.operation)
    ensures ParseRequest(b) == Some(r) <==> Transmittable(r)
  {
    if |r.authKey| < 64 {
      NodeIdDefaults(body);
    } else if ParseRequest(b).Some? {
      assert |ParseRequest(b).value.authKey| == |r.authKey| % 64;
    }
  }

  /** Reading undoes writing if and only if the request is transmittable. */
  lemma RequestRoundTrip(r: Request)
    requires InMemory(r)
    ensures RequestBytes(r).Some? && ParseRequest(RequestBytes(r).value) == Some(r) <==> Transmittable(r)
  {
    if r.operation.args.Some? {
      var b := RequestBytes(r).value;
      FrontRead(r, b);
      ParseBody(r);
      RequestRead(r, b, Body(r));
    }
  }

  /** Where every byte of a request is: its number, the length and flags of the key, the key, and then the operation with
      the node id between timestamp and arguments when it is sent. */
  lemma RequestLayout(r: Request)
    requires r.operation.args.Some?
    ensures RequestBytes(r).Some?
    ensures var b, n, op := RequestBytes(r).value, |r.authKey|, r.operation;
            var start := 5 + n + if r.authFlag1 then 11 else 9;
            && |b| == start + ArgStart(op.args.value, |op.args.value|)
            && BytesAt(b, 0, BigEndian(r.requestNumber, 4))
            && BytesAt(b, 4, [FlaggedByte(n, r.authFlag1, r.authFlag2)]) && BytesAt(b, 5, r.authKey)
            && BytesAt(b, 5 + n, [FlaggedByte(op.operatorNumber, op.flag1, op.flag2)])
            && BytesAt(b, 6 + n, BigEndian(op.timestamp, 8)) && (r.authFlag1 ==> BytesAt(b, 14 + n, BigEndian(op.nodeId, 2)))
            && BytesAt(b, start, ArgBytes(op.args.value))
  {
    var args := r.operation.args.value;
    ArgsBefore(args, |args|);
    assert args[..|args|] == args;
    FrontLayout(r);
    BodyLayout(r);
    var front, body, n, op := Front(r), Body(r), |r.authKey|, r.operation;
    Shorter(front, 0, BigEndian(r.requestNumber, 4), body);
    Shorter(front, 4, [FlaggedByte(n, r.authFlag1, r.authFlag2)], body);
    Shorter(front, 5, r.authKey, body);
    Further(front, body, 0, [FlaggedByte(op.operatorNumber, op.flag1, op.flag2)]);
    Further(front, body, 1, BigEndian(op.timestamp, 8));
    Further(front, body, if r.authFlag1 then 11 else 9, ArgBytes(args));
    if r.authFlag1 {
      Further(front, body, 9, BigEndian(op.nodeId, 2));
    }
  }

  lemma FrontLayout(r: Request)
    ensures var b := Front(r);
            && BytesAt(b, 0, BigEndian(r.requestNumber, 4)) && BytesAt(b, 5, r.authKey)
            && BytesAt(b, 4, [FlaggedByte(|r.authKey|, r.authFlag1, r.authFlag2)])
  {
    var number, flags := BigEndian(r.requestNumber, 4), [FlaggedByte(|r.authKey|, r.authFlag1, r.authFlag2)];
    Middle([], number, flags + r.authKey);
    Middle(number, flags, r.authKey);
    Middle(number + flags, r.authKey, []);
    Regroups(number, flags, r.authKey);
    assert [] + number == number && number + flags + r.authKey + [] == number + flags + r.authKey;
  }

  lemma BodyLayout(r: Request)
    requires r.operation.args.Some?
    ensures var b, op := Body(r), r.operation;
            && |b| == (if r.authFlag1 then 11 else 9) + |ArgBytes(op.args.value)|
            && BytesAt(b, 0, [FlaggedByte(op.operatorNumber, op.flag1, op.flag2)])
            && BytesAt(b, 1, BigEndian(op.timestamp, 8)) && (r.authFlag1 ==> BytesAt(b, 9, BigEndian(op.nodeId, 2)))
            && BytesAt(b, if r.authFlag1 then 11 else 9, ArgBytes(op.args.value))
  {
    var op := r.operation;
    var first, stamp, id, args :=
      [FlaggedByte(op.operatorNumber, op.flag1, op.flag2)], BigEndian(op.timestamp, 8), NodeIdBytes(r), ArgBytes(op.args.value);
    Middle([], first, stamp);
    Middle(first, stamp, []);
    assert [] + first + stamp == Head(op) && first + stamp + [] == Head(op);
    Shorter(Head(op), 0, first, id + args);
    Shorter(Head(op), 1, stamp, id + args);
    Regroups(Head(op), id, args);
    Middle(Head(op), id, args);
    Middle(Head(op) + id, args, []);
    assert Head(op) + id + args + [] == Head(op) + id + args;
  }
}
