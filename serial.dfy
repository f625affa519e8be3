/**
 * The receive side of the serial link (main/serial.c): the uart_rx_task loop that
 * frames incoming bytes into lines and copies publication and response payloads
 * into the one shared JSON buffer.
 *
 * The behaviour is first given as functions on a value (`Rx`, `Step`), and the
 * class `UartRx` then performs it in place on arrays and is proved to agree.
 */
module Serial {
  import opened CString

  const RX_BUF_SIZE: nat := 1024     // UART_RX_BUF_SIZE, the size of the line buffer data[]
  const JSON_BUF_SIZE: nat := 500    // sizeof(serial_json_buf)
  const MAX_POS: nat := RX_BUF_SIZE - 1

  const HASH: byte := 35    // '#'
  const SPACE: byte := 32   // ' '
  const COLON: byte := 58   // ':'

  /** Where the payload of a publication line ("# " + payload) starts. */
  const PUB_OFFSET: nat := 2
  /** Where the payload of a response line starts, after its fixed-width header. */
  const RESP_OFFSET: nat := 13

  /**
   * Everything the receive loop reads or writes: its local line buffer and write
   * position, and the globals serial_json_buf, pub_serial_received and
   * resp_serial_received.
   */
  datatype Rx = Rx(data: seq<byte>, pos: nat, json: seq<byte>, pubReceived: bool, respReceived: bool)
  {
    predicate Valid() {
      |data| == RX_BUF_SIZE && pos <= MAX_POS && |json| == JSON_BUF_SIZE
    }
  }

  /** The kind a finished line is recognised as by its first bytes. */
  datatype Kind = Pub | Resp | Neither

  /**
   * A finished line as the receive loop understands it. `Unterminated` is a
   * line of a recognised kind whose payload runs to the end of the line
   * buffer without a NUL, where strlen would read past the buffer.
   */
  datatype Message = Publish(payload: seq<byte>) | Response(payload: seq<byte>) | Unrecognized | Unterminated

  /**
   * Index that receives the terminating NUL when '\n' arrives at `pos`: a
   * directly preceding '\r' is replaced, otherwise the '\n' itself.
   */
  function LineEnd(data: seq<byte>, pos: nat): nat
    requires pos < |data|
  {
    if pos > 0 && data[pos - 1] == CR then pos - 1 else pos
  }

  /** The line buffer once its NUL terminator has been written. */
  function Terminated(data: seq<byte>, pos: nat): seq<byte>
    requires pos < |data|
  {
    data[LineEnd(data, pos) := NUL]
  }

  /**
   * Kind of a terminated line whose '\n' arrived at `pos`. The length test
   * uses `pos`, so a stripped '\r' still counts toward it.
   */
  function Classify(d: seq<byte>, pos: nat): Kind
    requires |d| == RX_BUF_SIZE
  {
    if d[0] == HASH && d[1] == SPACE && pos > 2 then Pub
    else if d[0] == COLON then Resp
    else Neither
  }

  /**
   * The message in the terminated line buffer `d`: the payload is the C string
   * at the kind's offset, up to the first NUL of the buffer, wherever it is.
   */
  function Parse(d: seq<byte>, pos: nat): (m: Message)
    requires |d| == RX_BUF_SIZE
    ensures m.Publish? <==> Classify(d, pos) == Pub && Strlen(d, PUB_OFFSET).Some?
    ensures m.Response? <==> Classify(d, pos) == Resp && Strlen(d, RESP_OFFSET).Some?
    ensures m.Unrecognized? <==> Classify(d, pos) == Neither
    ensures m.Publish? ==>
              && PUB_OFFSET + |m.payload| < |d| && d[PUB_OFFSET + |m.payload|] == NUL
              && NulFree(d, PUB_OFFSET, PUB_OFFSET + |m.payload|)
              && m.payload == d[PUB_OFFSET..PUB_OFFSET + |m.payload|]
    ensures m.Response? ==>
              && RESP_OFFSET + |m.payload| < |d| && d[RESP_OFFSET + |m.payload|] == NUL
              && NulFree(d, RESP_OFFSET, RESP_OFFSET + |m.payload|)
              && m.payload == d[RESP_OFFSET..RESP_OFFSET + |m.payload|]
  {
    match Classify(d, pos)
    case Pub =>
      (match Strlen(d, PUB_OFFSET)
       case Some(n) => Publish(d[PUB_OFFSET..PUB_OFFSET + n])
       case None => Unterminated)
    case Resp =>
      (match Strlen(d, RESP_OFFSET)
       case Some(n) => Response(d[RESP_OFFSET..RESP_OFFSET + n])
       case None => Unterminated)
    case Neither => Unrecognized
  }

  /** `json` with `bytes` written over its start; the remaining bytes keep their values. */
  function Overwrite(json: seq<byte>, bytes: seq<byte>): (r: seq<byte>)
    requires |bytes| <= |json|
    ensures |r| == |json|
    ensures forall i | 0 <= i < |bytes| :: r[i] == bytes[i]
    ensures forall i | |bytes| <= i < |json| :: r[i] == json[i]
  {
    bytes + json[|bytes|..]
  }

  /**
   * The copy step for the terminated line `s.data` whose '\n' arrived at
   * `s.pos`. A payload is copied only while its kind's flag is clear and when
   * it fits; otherwise the message is dropped whole. Both kinds write the same
   * buffer, and the last byte of that buffer is never written.
   */
  function Deliver(s: Rx): (t: Rx)
    requires s.Valid()
    ensures t.Valid() && t.data == s.data && t.pos == s.pos
    ensures s.pubReceived ==> t.pubReceived
    ensures s.respReceived ==> t.respReceived
    ensures t.json[JSON_BUF_SIZE - 1] == s.json[JSON_BUF_SIZE - 1]
    ensures t.json != s.json || t.pubReceived != s.pubReceived || t.respReceived != s.respReceived ==>
      || (Parse(s.data, s.pos).Publish? && !s.pubReceived && t.pubReceived && t.respReceived == s.respReceived)
      || (Parse(s.data, s.pos).Response? && !s.respReceived && t.respReceived && t.pubReceived == s.pubReceived)
  {
    match Parse(s.data, s.pos)
    case Publish(p) =>
      if !s.pubReceived && |p| < JSON_BUF_SIZE - 1 then
        s.(json := Overwrite(s.json, p + [NUL]), pubReceived := true)
      else s
    case Response(p) =>
      if !s.respReceived && |p| < JSON_BUF_SIZE - 2 then
        s.(json := Overwrite(s.json, p + [LF, NUL]), respReceived := true)
      else s
    case Unrecognized => s
    case Unterminated => s
  }

  /**
   * One pass of the receive loop in which the UART delivered byte `b`: the byte
   * is stored at data[pos]; '\n' finishes the line (terminate, classify, copy,
   * restart at 0), any other byte advances `pos` unless the last slot is reached.
   */
  function Next(s: Rx, b: byte): (t: Rx)
    requires s.Valid()
    ensures t.Valid()
    ensures b == LF ==> t.pos == 0
    ensures b != LF ==> t.pos == (if s.pos < MAX_POS then s.pos + 1 else MAX_POS)
    ensures b != LF ==> t.json == s.json && t.pubReceived == s.pubReceived && t.respReceived == s.respReceived
    ensures b != LF ==> t.data == s.data[s.pos := b]
  {
    var stored := s.data[s.pos := b];
    if b == LF then
      Deliver(s.(data := Terminated(stored, s.pos))).(pos := 0)
    else if s.pos < MAX_POS then
      s.(data := stored, pos := s.pos + 1)
    else
      s.(data := stored)
  }

  /** The state after the loop has processed every byte of `bs` in order. */
  function Feed(s: Rx, bs: seq<byte>): (t: Rx)
    requires s.Valid()
    ensures t.Valid()
    decreases |bs|
  {
    if bs == [] then s else Feed(Next(s, bs[0]), bs[1..])
  }

  /** The state the receive task starts in, given what its stack line buffer happens to hold. */
  function Initial(garbage: seq<byte>): Rx
    requires |garbage| == RX_BUF_SIZE
  {
    Rx(garbage, 0, seq(JSON_BUF_SIZE, _ => NUL), false, false)
  }

  /**
   * The receive task and the globals it writes, updated in place.
   * `data` and `pos` are locals of uart_rx_task; `json`, `pubReceived` and
   * `respReceived` are serial_json_buf and the two received flags.
   */
  class UartRx {
    const data: array<byte>
    var pos: nat
    const json: array<byte>
    var pubReceived: bool
    var respReceived: bool

    ghost predicate Valid()
      reads this
    {
      data.Length == RX_BUF_SIZE && json.Length == JSON_BUF_SIZE && data != json && pos <= MAX_POS
    }

    /** The value this object currently stands for. */
    ghost function State(): Rx
      reads this, data, json
    {
      Rx(data[..], pos, json[..], pubReceived, respReceived)
    }

    /**
     * Start of the receive task: `garbage` is whatever the uninitialised line buffer
     * holds; the static JSON buffer is zero and both flags are clear.
     */
    constructor (garbage: seq<byte>)
      requires |garbage| == RX_BUF_SIZE
      ensures Valid() && fresh(data) && fresh(json)
      ensures State() == Initial(garbage)
    {
      data := new byte[RX_BUF_SIZE](i requires 0 <= i < RX_BUF_SIZE => garbage[i]);
      json := new byte[JSON_BUF_SIZE](_ => NUL);
      pos := 0;
      pubReceived, respReceived := false, false;
    }

    /** get_serial_json_data: the shared JSON buffer itself. */
    method GetSerialJsonData() returns (buf: array<byte>)
      ensures buf == json
    {
      buf := json;
    }

    /**
     * strncpy(serial_json_buf, &data[from], n) for a source whose first n bytes
     * hold no NUL (n is their strlen), so exactly those n bytes are copied.
     */
    method CopyPayload(from: nat, n: nat)
      requires Valid() && from + n <= RX_BUF_SIZE && n <= JSON_BUF_SIZE
      requires NulFree(data[..], from, from + n)
      modifies json
      ensures json[..] == data[from..from + n] + old(json[..])[n..]
    {
      var i := 0;
      while i < n
        invariant 0 <= i <= n
        invariant forall k | 0 <= k < i :: json[k] == data[from + k]
        invariant forall k | i <= k < JSON_BUF_SIZE :: json[k] == old(json[k])
      {
        json[i] := data[from + i];
        i := i + 1;
      }
    }

    /** One pass of the loop in uart_rx_task after uart_read_bytes delivered `b`. */
    method Step(b: byte)
      requires Valid()
      modifies this, data, json
      ensures Valid()
      ensures State() == Next(old(State()), b)
    {
      data[pos] := b;
      if data[pos] == LF {
        Terminate();
        Dispatch();
        pos := 0;
      } else if pos < MAX_POS {
        pos := pos + 1;
      }
    }

    /** The NUL that ends the line: over a '\r' before the '\n', else over the '\n'. */
    method Terminate()
      requires Valid()
      modifies data
      ensures data[..] == Terminated(old(data[..]), pos)
    {
      if pos > 0 && data[pos - 1] == CR {
        data[pos - 1] := NUL;
      } else {
        data[pos] := NUL;
      }
    }

    /** Classify the terminated line and copy its payload when the flag and size allow. */
    method Dispatch()
      requires Valid()
      modifies this`pubReceived, this`respReceived, json
      ensures State() == Deliver(old(State()))
    {
      if data[0] == HASH && data[1] == SPACE && pos > 2 {
        var lenJson := Strlen(data[..], PUB_OFFSET);
        if !pubReceived && lenJson.Some? && lenJson.value < JSON_BUF_SIZE - 1 {
          StorePublication(lenJson.value);
        }
      } else if data[0] == COLON {
        var lenJson := Strlen(data[..], RESP_OFFSET);
        if !respReceived && lenJson.Some? && lenJson.value < JSON_BUF_SIZE - 2 {
          StoreResponse(lenJson.value);
        }
      }
    }

    /** The copy of a publication payload of n bytes, then its NUL, and the flag set. */
    method StorePublication(n: nat)
      requires Valid() && PUB_OFFSET + n <= RX_BUF_SIZE && n < JSON_BUF_SIZE - 1
      requires NulFree(data[..], PUB_OFFSET, PUB_OFFSET + n)
      modifies this`pubReceived, json
      ensures pubReceived
      ensures json[..] == Overwrite(old(json[..]), data[PUB_OFFSET..PUB_OFFSET + n] + [NUL])
    {
      CopyPayload(PUB_OFFSET, n);
      json[n] := NUL;
      pubReceived := true;
    }

    /** The copy of a response payload of n bytes, then '\n' and NUL, and the flag set. */
    method StoreResponse(n: nat)
      requires Valid() && RESP_OFFSET + n <= RX_BUF_SIZE && n < JSON_BUF_SIZE - 2
      requires NulFree(data[..], RESP_OFFSET, RESP_OFFSET + n)
      modifies this`respReceived, json
      ensures respReceived
      ensures json[..] == Overwrite(old(json[..]), data[RESP_OFFSET..RESP_OFFSET + n] + [LF, NUL])
    {
      CopyPayload(RESP_OFFSET, n);
      json[n] := LF;
      json[n + 1] := NUL;
      respReceived := true;
    }

    /** The receive loop run over the bytes `bs`, one uart_read_bytes call each. */
    method Run(bs: seq<byte>)
      requires Valid()
      modifies this, data, json
      ensures Valid()
      ensures State() == Feed(old(State()), bs)
    {
      var i := 0;
      while i < |bs|
        invariant 0 <= i <= |bs|
        invariant Valid()
        invariant Feed(old(State()), bs) == Feed(State(), bs[i..])
      {
        Step(bs[i]);
        i := i + 1;
      }
    }

    /** A consumer acknowledging the publication: pub_serial_received = false. */
    method ClearPub()
      requires Valid()
      modifies this
      ensures Valid() && State() == old(State()).(pubReceived := false)
    {
      pubReceived := false;
    }

    /** A consumer acknowledging the response: resp_serial_received = false. */
    method ClearResp()
      requires Valid()
      modifies this
      ensures Valid() && State() == old(State()).(respReceived := false)
    {
      respReceived := false;
    }
  }
}
