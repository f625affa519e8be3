/**
 * Properties of the receive loop of main/serial.c over whole byte streams:
 * how lines accumulate and are capped, how '\r\n' compares with '\n', what a
 * publication or response line leaves in the shared JSON buffer, and where
 * the loop reads bytes that are not part of the current line.
 */
module SerialProperties {
  import opened CString
  import opened Serial

  /** No byte of `bs` is '\n'. */
  predicate NoLF(bs: seq<byte>) {
    forall i | 0 <= i < |bs| :: bs[i] != LF
  }

  function Min(a: int, b: int): int {
    if a <= b then a else b
  }

  /** The optional '\r' before a line's '\n'. */
  function CrIf(cr: bool): seq<byte> {
    if cr then [CR] else []
  }

  /** A line as it travels on the wire: its text, an optional '\r', then '\n'. */
  function Line(text: seq<byte>, cr: bool): seq<byte> {
    text + CrIf(cr) + [LF]
  }

  /**
   * A text that is sent as one line: it holds no '\n', and when no '\r' is
   * added it does not itself end in '\r' (which the loop would strip).
   */
  predicate LineText(text: seq<byte>, cr: bool) {
    NoLF(text) && (!cr ==> text == [] || text[|text| - 1] != CR)
  }

  /**
   * The line buffer after `Line(text, cr)` was received into `prev` from
   * position 0: the text, its NUL, the '\n' left behind a stripped '\r', and
   * the bytes of earlier lines beyond.
   */
  function LineBuffer(prev: seq<byte>, text: seq<byte>, cr: bool): seq<byte>
    requires |text| + |CrIf(cr)| < |prev|
  {
    text + [NUL] + (if cr then [LF] else []) + prev[|text| + |CrIf(cr)| + 1..]
  }

  /** Feeding a concatenation is feeding its parts one after the other. */
  lemma {:induction false} FeedAppend(s: Rx, a: seq<byte>, b: seq<byte>)
    requires s.Valid()
    ensures Feed(s, a + b) == Feed(Feed(s, a), b)
    decreases |a|
  {
    if a == [] {
      assert a + b == b;
    } else {
      assert (a + b)[0] == a[0] && (a + b)[1..] == a[1..] + b;
      FeedAppend(Next(s, a[0]), a[1..], b);
    }
  }

  /**
   * Bytes other than '\n' are stored one after the other from `pos`, which
   * stops at the last slot; there each further byte replaces the previous one.
   * Nothing else changes.
   */
  lemma {:induction false} Accumulate(s: Rx, bs: seq<byte>)
    requires s.Valid() && NoLF(bs)
    ensures var r := Feed(s, bs);
      && r.pos == Min(s.pos + |bs|, MAX_POS)
      && r.json == s.json && r.pubReceived == s.pubReceived && r.respReceived == s.respReceived
      && (forall i | 0 <= i < s.pos :: r.data[i] == s.data[i])
      && (forall i | s.pos <= i < r.pos :: r.data[i] == bs[i - s.pos])
      && (s.pos + |bs| <= MAX_POS ==> forall i | r.pos <= i < RX_BUF_SIZE :: r.data[i] == s.data[i])
      && (s.pos + |bs| > MAX_POS ==> r.data[MAX_POS] == bs[|bs| - 1])
    decreases |bs|
  {
    if bs != [] {
      assert NoLF(bs[1..]);
      Accumulate(Next(s, bs[0]), bs[1..]);
    }
  }

  /** Bytes other than '\n' that fit the buffer, received from position 0, lie at its start. */
  lemma LaidOut(s: Rx, body: seq<byte>)
    requires s.Valid() && s.pos == 0 && NoLF(body) && |body| <= MAX_POS
    ensures Feed(s, body) == s.(data := body + s.data[|body|..], pos := |body|)
  {
    Accumulate(s, body);
    var r := Feed(s, body);
    assert r.data == body + s.data[|body|..];
  }

  /** The terminated buffer of a line laid out at the start of `prev`. */
  lemma TerminatedLine(prev: seq<byte>, text: seq<byte>, cr: bool)
    requires |text| + |CrIf(cr)| < |prev| && (!cr ==> text == [] || text[|text| - 1] != CR)
    ensures var body := text + CrIf(cr);
      Terminated((body + prev[|body|..])[|body| := LF], |body|) == LineBuffer(prev, text, cr)
  {
    var body := text + CrIf(cr);
    var stored := (body + prev[|body|..])[|body| := LF];
    assert LineEnd(stored, |body|) == |text|;
  }

  /**
   * A line that fits the buffer, received from position 0, is laid out at the
   * start of the buffer, terminated, and handed to the copy step; `pos` is 0
   * afterwards.
   */
  lemma FinishLine(s: Rx, text: seq<byte>, cr: bool)
    requires s.Valid() && s.pos == 0 && LineText(text, cr)
    requires |text| + |CrIf(cr)| <= MAX_POS
    ensures Feed(s, Line(text, cr))
         == Deliver(s.(data := LineBuffer(s.data, text, cr), pos := |text| + |CrIf(cr)|)).(pos := 0)
  {
    var body := text + CrIf(cr);
    assert NoLF(body);
    FeedAppend(s, body, [LF]);
    LaidOut(s, body);
    TerminatedLine(s.data, text, cr);
    var r := Feed(s, body);
    assert Feed(r, [LF]) == Next(r, LF);
  }

  /** The buffer `d` starts with `text` followed by a NUL. */
  predicate Holds(d: seq<byte>, text: seq<byte>) {
    && |text| < |d|
    && (forall i | 0 <= i < |text| :: d[i] == text[i])
    && d[|text|] == NUL
  }

  /** The bytes of `LineBuffer`, index by index. */
  lemma LineBufferAt(prev: seq<byte>, text: seq<byte>, cr: bool)
    requires |text| + |CrIf(cr)| < |prev|
    ensures var d := LineBuffer(prev, text, cr);
      && |d| == |prev| && Holds(d, text)
      && (cr ==> d[|text| + 1] == LF)
      && (forall i | |text| + |CrIf(cr)| + 1 <= i < |prev| :: d[i] == prev[i])
  {
  }

  /** The terminated buffer starts with the line text and its NUL. */
  lemma LineBufferText(prev: seq<byte>, text: seq<byte>, cr: bool)
    requires |text| + |CrIf(cr)| < |prev|
    ensures LineBuffer(prev, text, cr)[..|text| + 1] == text + [NUL]
  {
    LineBufferAt(prev, text, cr);
    var d := LineBuffer(prev, text, cr);
    assert forall i | 0 <= i < |text| + 1 :: d[..|text| + 1][i] == (text + [NUL])[i];
  }

  /** A NUL-free text followed by NUL: strlen gives its length at every offset within it. */
  lemma TextLength(d: seq<byte>, text: seq<byte>, from: nat)
    requires Holds(d, text) && from <= |text| && NulFree(text, from, |text|)
    ensures Strlen(d, from) == Some(|text| - from)
    ensures d[from..|text|] == text[from..]
  {
    assert NulFree(d, from, |text|) by {
      forall i | from <= i < |text| ensures d[i] != NUL {
        assert d[i] == text[i];
      }
    }
    StrlenOfString(d, from, |text| - from);
  }

  /** A buffer holding "# " + payload, whose '\n' came at `pos` > 2, holds that publication. */
  lemma ParsePublication(d: seq<byte>, text: seq<byte>, pos: nat)
    requires |d| == RX_BUF_SIZE && Holds(d, text) && pos > 2
    requires |text| >= PUB_OFFSET && text[0] == HASH && text[1] == SPACE
    requires NulFree(text, PUB_OFFSET, |text|)
    ensures Parse(d, pos) == Publish(text[PUB_OFFSET..])
  {
    TextLength(d, text, PUB_OFFSET);
  }

  /** A buffer holding ":" + 12 header bytes + payload holds that response. */
  lemma ParseResponse(d: seq<byte>, text: seq<byte>, pos: nat)
    requires |d| == RX_BUF_SIZE && Holds(d, text)
    requires |text| >= RESP_OFFSET && text[0] == COLON
    requires NulFree(text, RESP_OFFSET, |text|)
    ensures Parse(d, pos) == Response(text[RESP_OFFSET..])
  {
    TextLength(d, text, RESP_OFFSET);
  }

  /**
   * A publication line "# " + payload (with '\r\n' or '\n'), received from
   * position 0: when the publication flag is clear and the payload is shorter
   * than 499 bytes, the buffer starts with the payload and a NUL and the flag is
   * set; otherwise the buffer and flag stay. The response flag never changes.
   */
  lemma PublishLine(s: Rx, payload: seq<byte>, cr: bool)
    requires s.Valid() && s.pos == 0
    requires NulFree(payload, 0, |payload|) && LineText([HASH, SPACE] + payload, cr)
    requires payload != [] || cr
    requires PUB_OFFSET + |payload| + |CrIf(cr)| <= MAX_POS
    ensures var r := Feed(s, Line([HASH, SPACE] + payload, cr));
      && r.pos == 0 && r.respReceived == s.respReceived
      && if !s.pubReceived && |payload| < JSON_BUF_SIZE - 1
         then r.pubReceived && r.json == Overwrite(s.json, payload + [NUL])
         else r.pubReceived == s.pubReceived && r.json == s.json
  {
    var text := [HASH, SPACE] + payload;
    FinishLine(s, text, cr);
    LineBufferAt(s.data, text, cr);
    assert NulFree(text, PUB_OFFSET, |text|) by {
      forall i | PUB_OFFSET <= i < |text| ensures text[i] != NUL {
        assert text[i] == payload[i - PUB_OFFSET];
      }
    }
    assert text[PUB_OFFSET..] == payload;
    ParsePublication(LineBuffer(s.data, text, cr), text, |text| + |CrIf(cr)|);
  }

  /**
   * A response line ":" + a 12-byte header + payload (with '\r\n' or '\n'),
   * received from position 0: when the response flag is clear and the payload
   * is shorter than 498 bytes, the buffer starts with the payload, '\n' and NUL
   * and the flag is set; otherwise the buffer and flag stay. The publication
   * flag never changes, so a pending publication can be overwritten.
   */
  lemma RespondLine(s: Rx, header: seq<byte>, payload: seq<byte>, cr: bool)
    requires s.Valid() && s.pos == 0
    requires |header| == RESP_OFFSET - 1
    requires NulFree(payload, 0, |payload|) && LineText([COLON] + header + payload, cr)
    requires RESP_OFFSET + |payload| + |CrIf(cr)| <= MAX_POS
    ensures var r := Feed(s, Line([COLON] + header + payload, cr));
      && r.pos == 0 && r.pubReceived == s.pubReceived
      && if !s.respReceived && |payload| < JSON_BUF_SIZE - 2
         then r.respReceived && r.json == Overwrite(s.json, payload + [LF, NUL])
         else r.respReceived == s.respReceived && r.json == s.json
  {
    var text := [COLON] + header + payload;
    FinishLine(s, text, cr);
    LineBufferAt(s.data, text, cr);
    assert NulFree(text, RESP_OFFSET, |text|) by {
      forall i | RESP_OFFSET <= i < |text| ensures text[i] != NUL {
        assert text[i] == payload[i - RESP_OFFSET];
      }
    }
    assert text[RESP_OFFSET..] == payload;
    ParseResponse(LineBuffer(s.data, text, cr), text, |text| + |CrIf(cr)|);
  }

  /**
   * Two buffers that hold the same line text and the same bytes from index 13
   * on (when the text is shorter than 13) hold the same message once '\n'
   * came one position later in the first, unless the text is "# " or a
   * 12-byte ':' line.
   */
  lemma CrLfParse(da: seq<byte>, db: seq<byte>, text: seq<byte>)
    requires |da| == RX_BUF_SIZE && |db| == RX_BUF_SIZE && Holds(da, text) && Holds(db, text)
    requires |text| < RESP_OFFSET ==> forall i | |text| + 2 <= i < RX_BUF_SIZE :: da[i] == db[i]
    requires text != [HASH, SPACE] && !(|text| == RESP_OFFSET - 1 && text[0] == COLON)
    ensures Parse(da, |text| + 1) == Parse(db, |text|)
  {
    var n := |text|;
    assert Classify(da, n + 1) == Classify(db, n) by {
      if n >= 1 {
        assert da[0] == db[0] && da[1] == db[1];
      } else {
        assert da[0] == db[0];
      }
    }
    match Classify(db, n)
    case Pub =>
      StrlenAgree(da, db, PUB_OFFSET, n);
      var k := Strlen(db, PUB_OFFSET).value;
      assert da[PUB_OFFSET..PUB_OFFSET + k] == db[PUB_OFFSET..PUB_OFFSET + k];
    case Resp =>
      if n >= RESP_OFFSET {
        StrlenAgree(da, db, RESP_OFFSET, n);
        if Strlen(db, RESP_OFFSET).Some? {
          var k := Strlen(db, RESP_OFFSET).value;
          assert da[RESP_OFFSET..RESP_OFFSET + k] == db[RESP_OFFSET..RESP_OFFSET + k];
        }
      } else {
        StrlenSuffix(da, db, RESP_OFFSET);
        if Strlen(db, RESP_OFFSET).Some? {
          var k := Strlen(db, RESP_OFFSET).value;
          assert da[RESP_OFFSET..RESP_OFFSET + k] == db[RESP_OFFSET..RESP_OFFSET + k];
        }
      }
    case Neither =>
  }

  /**
   * Whatever came before, the terminated line holds a NUL at its end, so a
   * publication payload (offset 2, and `pos` > 2) never runs past the line; a
   * response payload stays inside the line when the line is at least 13 bytes.
   */
  lemma PayloadWithinLine(s: Rx)
    requires s.Valid()
    ensures var stored := s.data[s.pos := LF];
      var end := LineEnd(stored, s.pos);
      var d := Terminated(stored, s.pos);
      && end <= s.pos && d[end] == NUL
      && (Classify(d, s.pos) == Pub ==>
            Parse(d, s.pos).Publish? && PUB_OFFSET + |Parse(d, s.pos).payload| <= end)
      && (Classify(d, s.pos) == Resp && end >= RESP_OFFSET ==>
            Parse(d, s.pos).Response? && RESP_OFFSET + |Parse(d, s.pos).payload| <= end)
  {
    var stored := s.data[s.pos := LF];
    var end := LineEnd(stored, s.pos);
    var d := Terminated(stored, s.pos);
    if Classify(d, s.pos) == Pub {
      StrlenBounded(d, PUB_OFFSET, end);
    }
    if Classify(d, s.pos) == Resp && end >= RESP_OFFSET {
      StrlenBounded(d, RESP_OFFSET, end);
    }
  }

  /** The copy step looks at the line only through the message it holds. */
  lemma DeliverByMessage(a: Rx, b: Rx)
    requires a.Valid() && b.Valid()
    requires a.json == b.json && a.pubReceived == b.pubReceived && a.respReceived == b.respReceived
    requires Parse(a.data, a.pos) == Parse(b.data, b.pos)
    ensures Deliver(a).json == Deliver(b).json
    ensures Deliver(a).pubReceived == Deliver(b).pubReceived
    ensures Deliver(a).respReceived == Deliver(b).respReceived
  {
  }

  /**
   * "X\r\n" and "X\n" leave the same line text X followed by NUL, and the
   * same buffer and flags, except for two texts: "# ", which only with the
   * '\r' passes the length test and publishes an empty payload, and a 12-byte
   * ':' line, whose '\n' left at index 13 is then read as payload.
   */
  lemma CrLfSameAsLf(s: Rx, text: seq<byte>)
    requires s.Valid() && s.pos == 0 && LineText(text, false) && |text| + 1 <= MAX_POS
    ensures var a := Feed(s, Line(text, true));
      var b := Feed(s, Line(text, false));
      && a.pos == 0 && b.pos == 0
      && a.data[..|text| + 1] == text + [NUL] && b.data[..|text| + 1] == text + [NUL]
      && (text != [HASH, SPACE] && !(|text| == RESP_OFFSET - 1 && text[0] == COLON) ==>
            a.json == b.json && a.pubReceived == b.pubReceived && a.respReceived == b.respReceived)
  {
    FinishLine(s, text, true);
    FinishLine(s, text, false);
    CrLfDeliver(s, text);
  }

  /** `CrLfSameAsLf` on the two terminated buffers, before the copy step and after it. */
  lemma CrLfDeliver(s: Rx, text: seq<byte>)
    requires s.Valid() && LineText(text, false) && |text| + 1 <= MAX_POS
    ensures var sa := s.(data := LineBuffer(s.data, text, true), pos := |text| + 1);
      var sb := s.(data := LineBuffer(s.data, text, false), pos := |text|);
      && Deliver(sa).data[..|text| + 1] == text + [NUL] && Deliver(sb).data[..|text| + 1] == text + [NUL]
      && (text != [HASH, SPACE] && !(|text| == RESP_OFFSET - 1 && text[0] == COLON) ==>
            && Deliver(sa).json == Deliver(sb).json
            && Deliver(sa).pubReceived == Deliver(sb).pubReceived
            && Deliver(sa).respReceived == Deliver(sb).respReceived)
  {
    var sa := s.(data := LineBuffer(s.data, text, true), pos := |text| + 1);
    var sb := s.(data := LineBuffer(s.data, text, false), pos := |text|);
    LineBufferText(s.data, text, true);
    LineBufferText(s.data, text, false);
    if text != [HASH, SPACE] && !(|text| == RESP_OFFSET - 1 && text[0] == COLON) {
      LineBufferAt(s.data, text, true);
      LineBufferAt(s.data, text, false);
      CrLfParse(sa.data, sb.data, text);
      DeliverByMessage(sa, sb);
    }
  }

  /**
   * "# \r\n" publishes an empty payload, because the stripped '\r' still
   * counts toward `pos` > 2, while "# \n" is ignored.
   */
  lemma HashSpaceLines(s: Rx)
    requires s.Valid() && s.pos == 0 && !s.pubReceived
    ensures var a := Feed(s, Line([HASH, SPACE], true));
      a.pubReceived && a.json == Overwrite(s.json, [NUL])
    ensures var b := Feed(s, Line([HASH, SPACE], false));
      !b.pubReceived && b.respReceived == s.respReceived && b.json == s.json
  {
    assert [HASH, SPACE] + [] == [HASH, SPACE];
    PublishLine(s, [], true);
    FinishLine(s, [HASH, SPACE], false);
    assert Classify(LineBuffer(s.data, [HASH, SPACE], false), 2) == Neither;
  }

  /**
   * A line longer than the buffer keeps its first 1023 bytes, the last slot
   * holding the final byte before the '\n'. The '\r' test then looks at
   * index 1022, not at that final byte: when index 1022 holds '\r', the NUL
   * goes there, the line text is the first 1022 bytes and index 1023 keeps the
   * '\n'; otherwise the line text is the first 1023 bytes.
   */
  lemma OverlongLine(s: Rx, bs: seq<byte>)
    requires s.Valid() && s.pos == 0 && NoLF(bs) && |bs| >= MAX_POS
    ensures var r := Feed(s, bs + [LF]);
      && r.pos == 0
      && (bs[MAX_POS - 1] == CR ==>
            r.data[..MAX_POS - 1] == bs[..MAX_POS - 1] && r.data[MAX_POS - 1] == NUL && r.data[MAX_POS] == LF)
      && (bs[MAX_POS - 1] != CR ==>
            r.data[..MAX_POS] == bs[..MAX_POS] && r.data[MAX_POS] == NUL)
  {
    FeedAppend(s, bs, [LF]);
    Accumulate(s, bs);
    var p := Feed(s, bs);
    assert Feed(p, [LF]) == Next(p, LF);
    CappedLineEnd(p, bs);
  }

  /** The '\n' that ends a line at the last slot, whose first 1023 bytes are those of `bs`. */
  lemma CappedLineEnd(p: Rx, bs: seq<byte>)
    requires p.Valid() && p.pos == MAX_POS && |bs| >= MAX_POS
    requires forall i | 0 <= i < MAX_POS :: p.data[i] == bs[i]
    ensures var r := Next(p, LF);
      && r.pos == 0
      && (bs[MAX_POS - 1] == CR ==>
            r.data[..MAX_POS - 1] == bs[..MAX_POS - 1] && r.data[MAX_POS - 1] == NUL && r.data[MAX_POS] == LF)
      && (bs[MAX_POS - 1] != CR ==>
            r.data[..MAX_POS] == bs[..MAX_POS] && r.data[MAX_POS] == NUL)
  {
    var stored := p.data[MAX_POS := LF];
    var d := Terminated(stored, MAX_POS);
    assert Next(p, LF).data == d;
    if bs[MAX_POS - 1] == CR {
      assert LineEnd(stored, MAX_POS) == MAX_POS - 1;
      assert d[..MAX_POS - 1] == bs[..MAX_POS - 1];
    } else {
      assert LineEnd(stored, MAX_POS) == MAX_POS;
      assert d[..MAX_POS] == bs[..MAX_POS];
    }
  }

  /**
   * While a publication is pending, a second one is dropped whole: the
   * buffer keeps the first payload.
   */
  lemma SecondPublicationDropped(s: Rx, p: seq<byte>, q: seq<byte>)
    requires s.Valid() && s.pos == 0 && !s.pubReceived
    requires p != [] && NulFree(p, 0, |p|) && LineText([HASH, SPACE] + p, false)
    requires q != [] && NulFree(q, 0, |q|) && LineText([HASH, SPACE] + q, false)
    requires |p| < JSON_BUF_SIZE - 1 && PUB_OFFSET + |q| <= MAX_POS
    ensures var r := Feed(s, Line([HASH, SPACE] + p, false) + Line([HASH, SPACE] + q, false));
      r.pubReceived && r.json == Overwrite(s.json, p + [NUL])
  {
    var first := Line([HASH, SPACE] + p, false);
    FeedAppend(s, first, Line([HASH, SPACE] + q, false));
    PublishLine(s, p, false);
    PublishLine(Feed(s, first), q, false);
  }

  /**
   * A response that arrives while a publication is pending overwrites the
   * shared buffer, yet the publication flag stays set.
   */
  lemma ResponseOverwritesPendingPublication(s: Rx, p: seq<byte>, header: seq<byte>, q: seq<byte>)
    requires s.Valid() && s.pos == 0 && !s.pubReceived && !s.respReceived
    requires p != [] && NulFree(p, 0, |p|) && LineText([HASH, SPACE] + p, false) && |p| < JSON_BUF_SIZE - 1
    requires |header| == RESP_OFFSET - 1
    requires NulFree(q, 0, |q|) && LineText([COLON] + header + q, false) && |q| < JSON_BUF_SIZE - 2
    ensures var r := Feed(s, Line([HASH, SPACE] + p, false) + Line([COLON] + header + q, false));
      && r.pubReceived && r.respReceived
      && r.json == Overwrite(Overwrite(s.json, p + [NUL]), q + [LF, NUL])
  {
    var first := Line([HASH, SPACE] + p, false);
    FeedAppend(s, first, Line([COLON] + header + q, false));
    PublishLine(s, p, false);
    RespondLine(Feed(s, first), header, q, false);
  }

  /**
   * A ':' line shorter than 13 bytes takes its payload from index 13 of the
   * buffer, which still holds bytes of earlier lines; when no NUL follows
   * there, the line is dropped (the C code would read past the buffer).
   */
  lemma ShortResponseReadsOldBytes(s: Rx, text: seq<byte>)
    requires s.Valid() && s.pos == 0 && LineText(text, false)
    requires 1 <= |text| < RESP_OFFSET && text[0] == COLON
    ensures var r := Feed(s, Line(text, false));
      && r.pos == 0 && r.pubReceived == s.pubReceived
      && match Strlen(s.data, RESP_OFFSET)
         case None => r.json == s.json && r.respReceived == s.respReceived
         case Some(n) =>
           if !s.respReceived && n < JSON_BUF_SIZE - 2
           then r.respReceived && r.json == Overwrite(s.json, s.data[RESP_OFFSET..RESP_OFFSET + n] + [LF, NUL])
           else r.json == s.json && r.respReceived == s.respReceived
  {
    FinishLine(s, text, false);
    var d := LineBuffer(s.data, text, false);
    assert forall i | |text| + 1 <= i < RX_BUF_SIZE :: d[i] == s.data[i];
    StrlenSuffix(d, s.data, RESP_OFFSET);
    assert Classify(d, |text|) == Resp;
    match Strlen(s.data, RESP_OFFSET)
    case None =>
    case Some(n) =>
      assert d[RESP_OFFSET..RESP_OFFSET + n] == s.data[RESP_OFFSET..RESP_OFFSET + n];
  }

  /**
   * A 12-byte ':' line sent with '\r\n' leaves its '\n' at index 13, where the
   * response payload starts: the payload is that '\n' followed by the bytes of
   * earlier lines from index 14 up to the next NUL, and the line is dropped when
   * no NUL follows there.
   */
  lemma TwelveByteResponseWithCr(s: Rx, text: seq<byte>)
    requires s.Valid() && s.pos == 0 && LineText(text, true)
    requires |text| == RESP_OFFSET - 1 && text[0] == COLON
    ensures var r := Feed(s, Line(text, true));
      && r.pos == 0 && r.pubReceived == s.pubReceived
      && match Strlen(s.data, RESP_OFFSET + 1)
         case None => r.json == s.json && r.respReceived == s.respReceived
         case Some(n) =>
           if !s.respReceived && n + 1 < JSON_BUF_SIZE - 2
           then r.respReceived
             && r.json == Overwrite(s.json, [LF] + s.data[RESP_OFFSET + 1..RESP_OFFSET + 1 + n] + [LF, NUL])
           else r.json == s.json && r.respReceived == s.respReceived
  {
    FinishLine(s, text, true);
    var d := LineBuffer(s.data, text, true);
    LineBufferAt(s.data, text, true);
    ParseLeftoverLF(d, s.data);
  }

  /** A ':' line whose '\n' was left at index 13 reads it as the first payload byte. */
  lemma ParseLeftoverLF(d: seq<byte>, prev: seq<byte>)
    requires |d| == RX_BUF_SIZE && |prev| == RX_BUF_SIZE
    requires d[0] == COLON && d[RESP_OFFSET] == LF
    requires forall i | RESP_OFFSET + 1 <= i < RX_BUF_SIZE :: d[i] == prev[i]
    ensures Parse(d, RESP_OFFSET) == match Strlen(prev, RESP_OFFSET + 1)
      case None => Unterminated
      case Some(n) => Response([LF] + prev[RESP_OFFSET + 1..RESP_OFFSET + 1 + n])
  {
    StrlenSuffix(d, prev, RESP_OFFSET + 1);
    match Strlen(prev, RESP_OFFSET + 1)
    case None =>
    case Some(n) =>
      assert d[RESP_OFFSET..RESP_OFFSET + 1 + n] == [LF] + prev[RESP_OFFSET + 1..RESP_OFFSET + 1 + n] by {
        assert d[RESP_OFFSET + 1..RESP_OFFSET + 1 + n] == prev[RESP_OFFSET + 1..RESP_OFFSET + 1 + n];
      }
  }

  /**
   * Started on a line buffer that holds no NUL from index 13 on, a first
   * ':' line shorter than 13 bytes is dropped with a strlen from index 13 that
   * finds no NUL before the end of the buffer.
   */
  lemma ResponseRunsPastBuffer(garbage: seq<byte>, text: seq<byte>)
    requires |garbage| == RX_BUF_SIZE && NulFree(garbage, RESP_OFFSET, RX_BUF_SIZE)
    requires LineText(text, false) && 1 <= |text| < RESP_OFFSET && text[0] == COLON
    ensures var s := Initial(garbage);
      var r := Feed(s, Line(text, false));
      && Strlen(r.data, RESP_OFFSET).None?
      && r.json == s.json && !r.respReceived && !r.pubReceived
  {
    var s := Initial(garbage);
    ShortResponseReadsOldBytes(s, text);
    FinishLine(s, text, false);
    var d := LineBuffer(s.data, text, false);
    LineBufferAt(s.data, text, false);
    StrlenSuffix(d, s.data, RESP_OFFSET);
  }
}
