/** Decoding a push message, section 8.2.4.1 of WAP-230-WSP: two octets, the length of the headers,
    the content type and the other headers, and the body. */
module WapPush {
  import opened Wrappers
  import opened Bits
  import opened Hex
  import opened WapBuffer
  import opened WapContentType

  const PDU_TYPE_PUSH: byte := 0x06
  const PDU_TYPE_CONFIRMED_PUSH: byte := 0x07
  const PARAMETER_X_WAP_APPLICATION_ID: nat := 0x2F

  /** application/vnd.wap.coc, by number or by name. */
  predicate IsCoc(t: ContentType) {
    match t
    case Assigned(code) => code == 0x32
    case Spelled(text) => Characters(text) == "application/vnd.wap.coc"
  }

  // ---------------------------------------------------------------------------------------
  // What a message says
  // ---------------------------------------------------------------------------------------

  /** A push of either kind with a complete length. */
  predicate Framed(d: seq<byte>) {
    && 2 <= |d| <= MMS_PDU_MAX_SIZE
    && (d[1] == PDU_TYPE_PUSH || d[1] == PDU_TYPE_CONFIRMED_PUSH)
    && UintvarLast(d, 2) < |d|
  }

  function HeaderStart(d: seq<byte>): (p: nat)
    requires Framed(d)
    ensures 2 < p <= |d|
  {
    UintvarLast(d, 2) + 1
  }

  function HeaderLength(d: seq<byte>): nat
    requires Framed(d)
  {
    UintvarValue(d[2..HeaderStart(d)]) % UINT32
  }

  /** The declared headers go beyond the content type, lie in the message, and leave a body. */
  predicate Accepted(d: seq<byte>, r: Record) {
    && Framed(d)
    && var t := ContentTypeAt(d, HeaderStart(d), r);
       && t.Some?
       && var end := HeaderStart(d) + HeaderLength(d);
          t.value.end < end && (if IsCoc(t.value.contentType) then end <= |d| else end < |d|)
  }

  // ---------------------------------------------------------------------------------------
  // The application id among the headers
  // ---------------------------------------------------------------------------------------

  /** Behind a header value that is passed over; a value that does not fit is passed over only as
      far as it was read. */
  function SkipValue(d: seq<byte>, p: nat): (q: nat)
    requires p <= |d|
    ensures p <= q <= |d|
  {
    if p == |d| then p
    else if d[p] <= 30 then (if p + 1 + d[p] <= |d| then p + 1 + d[p] else p + 1)
    else if d[p] == LENGTH_QUOTE then
      var last := UintvarLast(d, p + 1);
      if last == |d| then |d|
      else
        var length := UintvarValue(d[p + 1..last + 1]) % UINT32;
        if last + 1 + length <= |d| then last + 1 + length else last + 1
    else if d[p] <= 127 then AfterText(d, p + 1)
    else p + 1
  }

  /** Where the attempt to read a number that is not at p leaves the cursor. */
  function TriedNumber(d: seq<byte>, p: nat): (q: nat)
    requires p <= |d|
    ensures p <= q <= |d|
  {
    if p < |d| && d[p] > LONG_VALUE_LEN_MAX then p + 1 else |d|
  }

  /** The id in the value at p: unchanged for a number, otherwise the text behind the octet that the
      attempt to read a number has used up. */
  function AppIdValue(d: seq<byte>, p: nat, was: seq<byte>): seq<byte>
    requires p <= |d|
  {
    if IntegerAt(d, p) then was
    else
      var q := TriedNumber(d, p);
      if q == |d| then [] else TextAt(d, q)
  }

  /** Where the search of the headers from p on finds the value of an application id: behind the
      first header whose name is a number with that value; a name that is no number ends it. */
  function IdValueAt(d: seq<byte>, p: nat): (q: Option<nat>)
    requires p <= |d|
    ensures q.Some? ==> p < q.value <= |d|
    decreases |d| - p
  {
    if !IntegerAt(d, p) then None
    else if IntegerValue(d, p) == PARAMETER_X_WAP_APPLICATION_ID then Some(IntegerEnd(d, p))
    else IdValueAt(d, SkipValue(d, IntegerEnd(d, p)))
  }

  /** The id after the headers from p on have been searched. */
  function AppId(d: seq<byte>, p: nat, was: seq<byte>): seq<byte>
    requires p <= |d|
  {
    match IdValueAt(d, p)
    case None => was
    case Some(q) => AppIdValue(d, q, was)
  }

  // ---------------------------------------------------------------------------------------
  // Headers written and read
  // ---------------------------------------------------------------------------------------

  /** The four forms of a header value, section 8.4.1.2 of WAP-230-WSP. */
  datatype Value =
    | Short(octets: seq<byte>)
    | Long(octets: seq<byte>)
    | Chars(quoted: bool, text: seq<byte>)
    | Number(v: byte)

  /** A header name is a number below 128, or a text. Code page shifts, which may stand between
      headers, are not among the headers written here. */
  datatype Name = Coded(v: byte) | Textual(text: seq<byte>)

  datatype Header = Header(name: Name, value: Value)

  predicate ValueOk(v: Value) {
    match v
    case Short(octets) => |octets| <= 30
    case Long(octets) => |octets| < UINT32
    case Chars(quoted, text) => Writable(quoted, text) && (quoted || 0x20 <= text[0] < 128)
    case Number(v) => v < 128
  }

  function WriteValue(v: Value): (s: seq<byte>)
    requires ValueOk(v)
    ensures |s| > 0
  {
    match v
    case Short(octets) => [|octets|] + octets
    case Long(octets) => [LENGTH_QUOTE] + EncodeUintvar(|octets|) + octets
    case Chars(quoted, text) => WriteText(quoted, text)
    case Number(v) => [128 + v]
  }

  predicate NameOk(n: Name) {
    match n
    case Coded(v) => v < 128
    case Textual(text) => Writable(false, text) && 0x20 <= text[0] < 128
  }

  predicate HeaderOk(h: Header) {
    NameOk(h.name) && ValueOk(h.value)
  }

  predicate HeadersOk(hs: seq<Header>) {
    forall i :: 0 <= i < |hs| ==> HeaderOk(hs[i])
  }

  function WriteName(n: Name): (s: seq<byte>)
    requires NameOk(n)
    ensures |s| > 0 && (n.Coded? ==> |s| == 1)
  {
    match n
    case Coded(v) => [128 + v]
    case Textual(text) => text + [0]
  }

  function WriteHeader(h: Header): seq<byte>
    requires HeaderOk(h)
  {
    WriteName(h.name) + WriteValue(h.value)
  }

  function WriteHeaders(hs: seq<Header>): seq<byte>
    requires HeadersOk(hs)
  {
    if hs == [] then [] else WriteHeader(hs[0]) + WriteHeaders(hs[1..])
  }

  predicate IsAppId(h: Header) {
    h.name == Coded(PARAMETER_X_WAP_APPLICATION_ID)
  }

  /** A written value of any form is passed over exactly. */
  lemma {:induction false} SkipsWritten(d: seq<byte>, p: nat, v: Value)
    requires ValueOk(v) && At(d, p, WriteValue(v))
    ensures SkipValue(d, p) == p + |WriteValue(v)|
  {
    hide UintvarLast, UintvarValue, UintvarHead, TextEnd, EncodeUintvar;
    match v
    case Short(octets) => AtOctet(d, p, WriteValue(v), 0);
    case Number(_) => AtOctet(d, p, WriteValue(v), 0);
    case Long(octets) => SkipsLong(d, p, octets);
    case Chars(quoted, text) => SkipsChars(d, p, quoted, text);
  }

  lemma {:induction false} SkipsLong(d: seq<byte>, p: nat, octets: seq<byte>)
    requires |octets| < UINT32 && At(d, p, [LENGTH_QUOTE] + EncodeUintvar(|octets|) + octets)
    ensures SkipValue(d, p) == p + 1 + |EncodeUintvar(|octets|)| + |octets|
  {
    hide UintvarLast, UintvarValue, UintvarHead, TextEnd, EncodeUintvar, AfterText;
    var code := EncodeUintvar(|octets|);
    AtConcat(d, p, [LENGTH_QUOTE] + code, octets);
    AtOctet(d, p, [LENGTH_QUOTE] + code, 0);
    AtConcat(d, p, [LENGTH_QUOTE], code);
    var before, after := d[..p + 1], d[p + 1 + |code|..];
    assert d == before + code + after;
    UintvarRoundTrip(|octets|, before, after);
  }

  lemma {:induction false} SkipsChars(d: seq<byte>, p: nat, quoted: bool, text: seq<byte>)
    requires ValueOk(Chars(quoted, text)) && At(d, p, WriteText(quoted, text))
    ensures SkipValue(d, p) == p + |WriteText(quoted, text)|
  {
    hide UintvarLast, UintvarValue, TextEnd, WriteText, TextAt;
    ReadText(d, p, quoted, text);
    TextEndAhead(d, p);
  }

  /** The end of a text that does not start with its end is found from the next octet as well. */
  lemma TextEndAhead(d: seq<byte>, p: nat)
    requires p < |d| && d[p] != 0
    ensures TextEnd(d, p + 1) == TextEnd(d, p)
  {
  }

  /** Reading the name of a written header. */
  lemma {:induction false} ReadName(d: seq<byte>, p: nat, n: Name)
    requires NameOk(n) && At(d, p, WriteName(n))
    ensures IntegerAt(d, p) <==> n.Coded?
    ensures n.Coded? ==> IntegerEnd(d, p) == p + 1 && IntegerValue(d, p) == n.v
  {
    AtOctet(d, p, WriteName(n), 0);
  }

  /** What the search does at a written header. */
  lemma {:induction false} SearchHeader(d: seq<byte>, p: nat, h: Header)
    requires HeaderOk(h) && At(d, p, WriteHeader(h))
    ensures h.name.Textual? ==> IdValueAt(d, p).None?
    ensures IsAppId(h) ==> IdValueAt(d, p) == Some(p + 1) && At(d, p + 1, WriteValue(h.value))
    ensures h.name.Coded? && !IsAppId(h) ==> IdValueAt(d, p) == IdValueAt(d, p + |WriteHeader(h)|)
  {
    hide SkipValue, WriteValue, IntegerValue, IntegerEnd, ValueOk, Writable, At;
    AtConcat(d, p, WriteName(h.name), WriteValue(h.value));
    AtBound(d, p, WriteHeader(h));
    ReadName(d, p, h.name);
    SkipsWritten(d, p + |WriteName(h.name)|, h.value);
  }

  lemma AtBound(d: seq<byte>, p: nat, s: seq<byte>)
    requires At(d, p, s)
    ensures p + |s| <= |d|
  {
  }

  /** All names in front of header i are numbers. */
  predicate CodedBefore(hs: seq<Header>, i: nat)
    requires i <= |hs|
  {
    forall j :: 0 <= j < i ==> hs[j].name.Coded?
  }

  /** Header i is the first application id. */
  predicate FirstId(hs: seq<Header>, i: nat) {
    i < |hs| && IsAppId(hs[i]) && forall j :: 0 <= j < i ==> !IsAppId(hs[j])
  }

  /** Over any headers written without code page shifts the search ends at the value of the first
      application id, at its exact position, if and only if no header with a textual name stands in front of it; otherwise it
      finds nothing. */
  lemma {:induction false} FindsFirstId(d: seq<byte>, p: nat, hs: seq<Header>, i: nat)
    requires HeadersOk(hs) && At(d, p, WriteHeaders(hs)) && FirstId(hs, i)
    ensures var at := p + |WriteHeaders(hs[..i])| + 1;
            && p <= |d| && At(d, at, WriteValue(hs[i].value))
            && IdValueAt(d, p) == (if CodedBefore(hs, i) then Some(at) else None)
    decreases |hs|
  {
    hide IdValueAt, WriteValue, WriteHeader, HeaderOk, At;
    var first := WriteHeader(hs[0]);
    AtBound(d, p, WriteHeaders(hs));
    AtConcat(d, p, first, WriteHeaders(hs[1..]));
    SearchHeader(d, p, hs[0]);
    if i == 0 {
      assert hs[..0] == [];
    } else {
      HeadersCons(hs, i);
      assert forall j :: 0 < j < |hs| ==> hs[j] == hs[1..][j - 1];
      FindsFirstId(d, p + |first|, hs[1..], i - 1);
      assert CodedBefore(hs, i) <==> hs[0].name.Coded? && CodedBefore(hs[1..], i - 1);
    }
  }

  lemma {:induction false} HeadersCons(hs: seq<Header>, i: nat)
    requires HeadersOk(hs) && 0 < i <= |hs|
    ensures WriteHeaders(hs[..i]) == WriteHeader(hs[0]) + WriteHeaders(hs[1..][..i - 1])
  {
    hide WriteHeader, HeaderOk;
    assert hs[..i][1..] == hs[1..][..i - 1];
  }

  /** Written headers to the end without an application id: the search finds nothing. */
  lemma {:induction false} FindsNoId(d: seq<byte>, p: nat, hs: seq<Header>)
    requires HeadersOk(hs) && At(d, p, WriteHeaders(hs)) && p + |WriteHeaders(hs)| == |d|
    requires forall j :: 0 <= j < |hs| ==> !IsAppId(hs[j])
    ensures IdValueAt(d, p).None?
    decreases |hs|
  {
    hide IdValueAt, WriteValue, WriteHeader, HeaderOk, At;
    if hs == [] {
      NoIdAtEnd(d);
    } else {
      AtConcat(d, p, WriteHeader(hs[0]), WriteHeaders(hs[1..]));
      SearchHeader(d, p, hs[0]);
      FindsNoId(d, p + |WriteHeader(hs[0])|, hs[1..]);
    }
  }

  lemma NoIdAtEnd(d: seq<byte>)
    ensures IdValueAt(d, |d|).None?
  {
  }

  lemma {:induction false} RawText(d: seq<byte>, p: nat, text: seq<byte>)
    requires At(d, p, text + [0]) && 0 !in text
    ensures p < |d| && TextAt(d, p) == if text != [] && text[0] == QUOTE then text[1..] else text
  {
    hide TextEnd;
    AtOctet(d, p, text + [0], |text|);
    AtOctet(d, p, text + [0], 0);
    forall i | p <= i < p + |text| ensures d[i] != 0 {
      AtOctet(d, p, text + [0], i - p);
      assert d[i] == text[i - p];
    }
    TextEndIs(d, p, p + |text|);
    AtConcat(d, p, text, [0]);
    if text != [] && text[0] == QUOTE {
      TextEndIs(d, p + 1, p + |text|);
      assert text == [QUOTE] + text[1..];
      AtConcat(d, p, [QUOTE], text[1..]);
    }
  }

  /** An application id that is a uri comes back whole if and only if it is written with a quote and
      does not itself start with one; otherwise the octet that the attempt to read a number uses up
      is its first character. */
  lemma {:induction false} UriComesBack(d: seq<byte>, p: nat, quoted: bool, uri: seq<byte>, was: seq<byte>)
    requires Writable(quoted, uri) && (!quoted ==> LONG_VALUE_LEN_MAX < uri[0] < 128)
    requires At(d, p, WriteText(quoted, uri))
    ensures AppIdValue(d, p, was) == uri <==> quoted && (uri == [] || uri[0] != QUOTE)
    ensures !quoted && (|uri| == 1 || uri[1] != QUOTE) ==> AppIdValue(d, p, was) == uri[1..]
  {
    hide TextAt;
    var s := WriteText(quoted, uri);
    AtOctet(d, p, s, 0);
    var text := if quoted then uri else uri[1..];
    assert s == [s[0]] + (text + [0]);
    AtConcat(d, p, [s[0]], text + [0]);
    RawText(d, p + 1, text);
  }

  /** Written headers whose first application id is a uri: the search records it whole if and only
      if no textual name stands in front and the uri is quoted. */
  lemma {:induction false} HeadersGiveUri(hs: seq<Header>, i: nat, was: seq<byte>)
    requires HeadersOk(hs) && FirstId(hs, i)
    requires hs[i].value.Chars? && (hs[i].value.text != [] ==> hs[i].value.text[0] != QUOTE) && hs[i].value.text != was
    ensures AppId(WriteHeaders(hs), 0, was) == hs[i].value.text <==> hs[i].value.quoted && CodedBefore(hs, i)
  {
    hide AppIdValue, IdValueAt, WriteHeaders, CodedBefore;
    var d := WriteHeaders(hs);
    assert d[0..0 + |d|] == d;
    FindsFirstId(d, 0, hs, i);
    assert HeaderOk(hs[i]);
    UriComesBack(d, |WriteHeaders(hs[..i])| + 1, hs[i].value.quoted, hs[i].value.text, was);
  }

  // ---------------------------------------------------------------------------------------
  // The handler
  // ---------------------------------------------------------------------------------------

  class SmsWapPushHandler {
    var transactionId: byte
    var pushType: byte
    var strAppId: seq<byte>
    var hexHeaderData: string
    var hexWbXmlData: string
    const contentType: SmsWapPushContentType

    constructor ()
    {
      transactionId, pushType, strAppId, hexHeaderData, hexWbXmlData := 0, 0, [], "", "";
      contentType := new SmsWapPushContentType();
    }

    method DecodePushType(buffer: SmsWapPushBuffer) returns (ok: bool)
      requires buffer.Valid()
      modifies this`transactionId, this`pushType, buffer`curPosition
      ensures buffer.Valid()
      ensures var p := old(buffer.curPosition);
              && (ok <==> p + 2 <= |buffer.pduBuffer| && buffer.pduBuffer[p + 1] in {PDU_TYPE_PUSH, PDU_TYPE_CONFIRMED_PUSH})
              && (ok ==> buffer.curPosition == p + 2 && transactionId == buffer.pduBuffer[p] && pushType == buffer.pduBuffer[p + 1])
    {
      ok, transactionId := buffer.GetOneByte();
      if !ok {
        return;
      }
      ok, pushType := buffer.GetOneByte();
      if !ok {
        return;
      }
      ok := !(pushType != PDU_TYPE_PUSH && pushType != PDU_TYPE_CONFIRMED_PUSH);
    }

    method DecodeXWapAbandonHeaderValue(buffer: SmsWapPushBuffer) returns (ok: bool)
      requires buffer.Valid()
      modifies buffer`curPosition
      ensures buffer.Valid()
      ensures buffer.curPosition == SkipValue(buffer.pduBuffer, old(buffer.curPosition))
      ensures forall v :: ValueOk(v) && At(buffer.pduBuffer, old(buffer.curPosition), WriteValue(v)) ==>
                buffer.curPosition == old(buffer.curPosition) + |WriteValue(v)|
    {
      hide UintvarLast, UintvarValue, TextEnd, TextAt, ValueOk, WriteValue;
      ghost var p := buffer.curPosition;
      forall v | ValueOk(v) && At(buffer.pduBuffer, p, WriteValue(v))
        ensures SkipValue(buffer.pduBuffer, p) == p + |WriteValue(v)|
      {
        SkipsWritten(buffer.pduBuffer, p, v);
      }
      var oneByte;
      ok, oneByte := buffer.GetOneByte();
      if !ok {
        return;
      }
      if oneByte <= 30 {
        ok := buffer.IncreasePointer(oneByte);
      } else if oneByte == LENGTH_QUOTE {
        var length, count;
        ok, length, count := buffer.DecodeUintvar();
        if !ok {
          return;
        }
        ok := buffer.IncreasePointer(length);
      } else if oneByte <= 127 {
        var strTemp, length;
        ok, strTemp, length := buffer.DecodeText();
      }
    }

    method DecodeXWapApplicationValue(buffer: SmsWapPushBuffer) returns (ok: bool)
      requires buffer.Valid()
      modifies this`strAppId, buffer`curPosition
      ensures buffer.Valid()
      ensures strAppId == AppIdValue(buffer.pduBuffer, old(buffer.curPosition), old(strAppId))
      ensures var d, p := buffer.pduBuffer, old(buffer.curPosition);
              if IntegerAt(d, p) then ok && buffer.curPosition == IntegerEnd(d, p)
              else
                var q := TriedNumber(d, p);
                buffer.curPosition == AfterText(d, q) && (ok <==> q < |d| && d[q] != 0)
    {
      hide TextEnd, TextAt, BigEndian;
      var appIdValue;
      ok, appIdValue := buffer.DecodeInteger();
      if ok {
        return;
      }
      var len;
      ok, strAppId, len := buffer.DecodeText();
    }

    /** Searches the headers; every round reads at least one octet. */
    method DecodeXWapApplicationField(buffer: SmsWapPushBuffer) returns (ok: bool)
      requires buffer.Valid()
      modifies this`strAppId, buffer`curPosition
      ensures buffer.Valid()
      ensures strAppId == AppId(buffer.pduBuffer, old(buffer.curPosition), old(strAppId))
      ensures ok ==> IdValueAt(buffer.pduBuffer, old(buffer.curPosition)).Some?
    {
      hide SkipValue, AppIdValue, IntegerValue, ValueOk, WriteValue, At;
      ghost var d, was := buffer.pduBuffer, strAppId;
      while buffer.curPosition < |buffer.pduBuffer|
        invariant buffer.Valid() && buffer.pduBuffer == d && strAppId == was
        invariant IdValueAt(d, buffer.curPosition) == IdValueAt(d, old(buffer.curPosition))
        decreases |d| - buffer.curPosition
      {
        var fieldValue;
        ok, fieldValue := buffer.DecodeInteger();
        if !ok {
          return;
        }
        if fieldValue == PARAMETER_X_WAP_APPLICATION_ID {
          ok := DecodeXWapApplicationValue(buffer);
          return;
        } else {
          var _ := DecodeXWapAbandonHeaderValue(buffer);
        }
      }
      ok := false;
    }

    /** Searches a copy of the headers behind the content type, when they lie in the message. */
    method DecodeXWapApplication(buffer: SmsWapPushBuffer, headersLen: nat) returns (ok: bool)
      requires buffer.Valid()
      modifies this`strAppId, buffer`curPosition
      ensures buffer.Valid()
      ensures var p, d := old(buffer.curPosition), buffer.pduBuffer;
              if 0 < headersLen && p + headersLen <= |d| then
                strAppId == AppId(d[p..p + headersLen], 0, old(strAppId)) && buffer.curPosition == p + headersLen
              else strAppId == old(strAppId) && buffer.curPosition == p
    {
      hide AppId;
      var data := buffer.ReadDataBuffer(buffer.curPosition, headersLen);
      if headersLen > 0 && data.Some? {
        var temp := new SmsWapPushBuffer();
        ok := temp.WriteRawStringBuffer(data.value);
        if !ok {
          return;
        }
        var _ := buffer.IncreasePointer(headersLen);
        ok := DecodeXWapApplicationField(temp);
        return;
      }
      ok := false;
    }

    method DecodeWapPushPduData(buffer: SmsWapPushBuffer, startHeader: nat, headerLength: nat) returns (ok: bool)
      requires buffer.Valid()
      modifies this`hexHeaderData, this`hexWbXmlData
      ensures var d, end, coc := buffer.pduBuffer, startHeader + headerLength, IsCoc(contentType.contentType);
              && (ok <==> 0 < headerLength && (if coc then end <= |d| else end < |d|))
              && (ok ==> hexHeaderData == ToHex(d[startHeader..end]) && hexWbXmlData == ToHex(if coc then d else d[end..]))
    {
      hide ToHex, IsCoc;
      var header := buffer.ReadDataBuffer(startHeader, headerLength);
      if header.None? {
        return false;
      }
      hexHeaderData := StringToHex(header.value);
      var posData, dataLength := 0, |buffer.pduBuffer|;
      if !IsCoc(contentType.contentType) {
        dataLength := |buffer.pduBuffer| - startHeader - headerLength;
        posData := startHeader + headerLength;
      }
      var body := buffer.ReadDataBuffer(posData, dataLength);
      if body.None? {
        return false;
      }
      assert buffer.pduBuffer[0..|buffer.pduBuffer|] == buffer.pduBuffer;
      hexWbXmlData := StringToHex(body.value);
      ok := true;
    }

    /** What follows the content type. The 32-bit sum of start and length wraps only for lengths
        that are refused anyway. */
    method DecodeHeadersAndBody(buffer: SmsWapPushBuffer, startHeader: nat, headerLength: nat) returns (ok: bool)
      requires buffer.Valid() && startHeader <= buffer.curPosition && headerLength < UINT32
      modifies this`strAppId, this`hexHeaderData, this`hexWbXmlData, buffer`curPosition
      ensures var p, d, end, coc := old(buffer.curPosition), buffer.pduBuffer, startHeader + headerLength, IsCoc(contentType.contentType);
              && (ok <==> p < end && (if coc then end <= |d| else end < |d|))
              && (ok ==>
                    && strAppId == AppId(d[p..end], 0, old(strAppId))
                    && hexHeaderData == ToHex(d[startHeader..end])
                    && (if coc then hexWbXmlData == ToHex(d) else hexHeaderData + hexWbXmlData == ToHex(d[startHeader..])))
    {
      hide ToHex, IsCoc, AppId;
      var curentPosition := buffer.curPosition;
      if (headerLength + startHeader) % UINT32 <= curentPosition {
        return false;
      }
      var headersLen := headerLength + startHeader - curentPosition;
      var _ := DecodeXWapApplication(buffer, headersLen);
      ok := DecodeWapPushPduData(buffer, startHeader, headerLength);
      if ok {
        HeaderThenBody(buffer.pduBuffer, startHeader, startHeader + headerLength);
      }
    }

    /** Accepts exactly the messages that Accepted describes. Header and body are then all octets
        from the start of the headers, in order, each once. */
    method DecodeWapPushPdu(wapPdu: seq<byte>) returns (ok: bool)
      modifies this, contentType
      ensures ok <==> Accepted(wapPdu, old(contentType.Rec()))
      ensures ok ==>
                var start, length := HeaderStart(wapPdu), HeaderLength(wapPdu);
                var t := ContentTypeAt(wapPdu, start, old(contentType.Rec())).value;
                && transactionId == wapPdu[0] && pushType == wapPdu[1]
                && contentType.contentType == t.contentType && contentType.Rec() == t.record
                && strAppId == AppId(wapPdu[t.end..start + length], 0, old(strAppId))
                && hexHeaderData == ToHex(wapPdu[start..start + length])
                && (if IsCoc(t.contentType) then hexWbXmlData == ToHex(wapPdu)
                    else hexHeaderData + hexWbXmlData == ToHex(wapPdu[start..]))
    {
      hide ToHex, IsCoc, AppId, ContentTypeAt, UintvarLast, UintvarValue;
      var buffer := new SmsWapPushBuffer();
      ok := buffer.WriteRawStringBuffer(wapPdu);
      if !ok {
        return;
      }
      ok := DecodePushType(buffer);
      if !ok {
        return;
      }
      var headerLength, count;
      ok, headerLength, count := buffer.DecodeUintvar();
      if !ok {
        return;
      }
      var startHeader := buffer.curPosition;
      var contentTypeLength;
      ok, contentTypeLength := contentType.DecodeContentType(buffer);
      if !ok {
        return;
      }
      ok := DecodeHeadersAndBody(buffer, startHeader, headerLength);
    }
  }

  lemma {:induction false} HeaderThenBody(d: seq<byte>, start: nat, end: nat)
    requires start <= end <= |d|
    ensures ToHex(d[start..end]) + ToHex(d[end..]) == ToHex(d[start..])
  {
    hide ToHex;
    ToHexConcat(d[start..end], d[end..]);
    assert d[start..] == d[start..end] + d[end..];
  }

  // ---------------------------------------------------------------------------------------
  // Messages written and read
  // ---------------------------------------------------------------------------------------

  /** A message as a sender writes it. */
  function WritePush(tid: byte, kind: byte, contentType: seq<byte>, headers: seq<byte>, body: seq<byte>): seq<byte> {
    [tid, kind] + EncodeUintvar(|contentType + headers|) + (contentType + headers + body)
  }

  /** The parts of a written message are found where they were written. */
  lemma {:induction false} ReadFrame(tid: byte, kind: byte, contentType: seq<byte>, headers: seq<byte>, body: seq<byte>)
    requires kind == PDU_TYPE_PUSH || kind == PDU_TYPE_CONFIRMED_PUSH
    requires |WritePush(tid, kind, contentType, headers, body)| <= MMS_PDU_MAX_SIZE
    ensures var d := WritePush(tid, kind, contentType, headers, body);
            && Framed(d)
            && HeaderLength(d) == |contentType| + |headers|
            && HeaderStart(d) + |contentType| + |headers| + |body| == |d|
            && At(d, HeaderStart(d), contentType)
  {
    hide UintvarLast, UintvarValue, EncodeUintvar;
    var before, code, after := [tid, kind], EncodeUintvar(|contentType + headers|), contentType + headers + body;
    var d := WritePush(tid, kind, contentType, headers, body);
    UintvarRoundTrip(|contentType + headers|, before, after);
    var start := 2 + |code|;
    assert d[start..start + |contentType|] == contentType;
  }

  /** A written message, its content type in any form, is accepted exactly when it has headers besides
      the content type and, unless it is application/vnd.wap.coc, a body; its content type and
      parameters are then learnt as they were written. */
  lemma {:induction false} WrittenAccepted(tid: byte, kind: byte, f: Form, headers: seq<byte>, body: seq<byte>, r: Record)
    requires kind == PDU_TYPE_PUSH || kind == PDU_TYPE_CONFIRMED_PUSH
    requires FormOk(f) && |WritePush(tid, kind, WriteForm(f), headers, body)| <= MMS_PDU_MAX_SIZE
    ensures var d := WritePush(tid, kind, WriteForm(f), headers, body);
            && Framed(d) && HeaderStart(d) + HeaderLength(d) + |body| == |d|
            && ContentTypeAt(d, HeaderStart(d), r) == Some(Decoded(HeaderStart(d) + |WriteForm(f)|, TypeOf(f), Learnt(f, r)))
            && (Accepted(d, r) <==> headers != [] && (body != [] || IsCoc(TypeOf(f))))
  {
    hide ContentTypeAt, Learnt, WriteForm, FormOk, Framed, HeaderStart, HeaderLength, IsCoc;
    var ct := WriteForm(f);
    var d := WritePush(tid, kind, ct, headers, body);
    ReadFrame(tid, kind, ct, headers, body);
    ReadForm(d, HeaderStart(d), f, r);
  }

  /** A push of application/vnd.wap.coc by its number, with a header and a body: its type is known as
      such, so that the body handed on is the whole message. */
  lemma {:induction false} CocByNumber(r: Record)
    ensures var d := [0x01, 0x06, 0x03, 0xB2, 0xAF, 0x84, 0x05];
            && Accepted(d, r) && HeaderStart(d) == 3 && HeaderLength(d) == 3
            && IsCoc(ContentTypeAt(d, 3, r).value.contentType)
  {
    var f := OneOctet(0x32);
    var headers, body := [0xAF, 0x84], [0x05];
    assert WriteForm(f) == [0xB2] && EncodeUintvar(3) == [3];
    var d := [0x01, 0x06, 0x03, 0xB2, 0xAF, 0x84, 0x05];
    assert WritePush(1, 6, [0xB2], headers, body) == d;
    hide ContentTypeAt, WriteForm, Framed, EncodeUintvar, WritePush, UintvarLast, UintvarValue;
    WrittenAccepted(1, 6, f, headers, body, r);
    ReadFrame(1, 6, [0xB2], headers, body);
  }

  /** A value that does not fit: a short length reaching beyond the end is passed over alone, a number
      without end takes everything, and a quoted length reaching beyond the end is passed over with
      its number. */
  lemma {:induction false} SkipsUnfit(d: seq<byte>, p: nat)
    requires p < |d|
    ensures d[p] <= 30 && p + 1 + d[p] > |d| ==> SkipValue(d, p) == p + 1
    ensures d[p] == 31 && (forall i :: p < i < |d| ==> d[i] >= 128) ==> SkipValue(d, p) == |d|
    ensures d[p] == 31 && !ValueFits(d, p) && ValueLengthAt(d, p) ==> SkipValue(d, p) == ValueLengthEnd(d, p)
  {
    hide UintvarValue;
  }

  /** The declared octets behind the length at p are all there. */
  predicate ValueFits(d: seq<byte>, p: nat) {
    ValueLengthAt(d, p) && ValueLengthEnd(d, p) + ValueLengthValue(d, p) <= |d|
  }
}
