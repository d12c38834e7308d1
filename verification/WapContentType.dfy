/** The content type of a push message: its three forms and the parameters behind it, sections
    8.4.2.4 and 8.4.2.24 of WAP-230-WSP. */
module WapContentType {
  import opened Wrappers
  import opened Bits
  import opened WapBuffer

  /** A content type by its assigned number, or spelled out. */
  datatype ContentType = Assigned(code: byte) | Spelled(text: seq<byte>)

  const CT_P_CHARSET: byte := 0x81

  predicate IsTextParam(code: byte) {
    code in {0x85, 0x86, 0x8A, 0x8B, 0x97, 0x98, 0x99, 0x9A}
  }

  predicate IsTypeParam(code: byte) {
    code == 0x83 || code == 0x89
  }

  function Characters(text: seq<byte>): string {
    seq(|text|, i requires 0 <= i < |text| => text[i] as char)
  }

  /** The assigned numbers of the character sets that can be spelled out. */
  function CharSetFromText(text: seq<byte>): Option<nat> {
    var name := Characters(text);
    if name == "US-ASCII" then Some(0x03)
    else if name == "UTF-16" then Some(0x03F7)
    else if name == "CSUNICODE" then Some(0x03E8)
    else if name == "UTF-8" then Some(0x6A)
    else if name == "ISO-2022-KR" then Some(0x25)
    else if name == "KS_C_5601-1987" then Some(0x24)
    else if name == "EUC-KR" then Some(0x26)
    else if name == "ISO-2022-JP" then Some(0x27)
    else if name == "ISO-2022-JP-2" then Some(0x28)
    else if name == "ISO_8859-1" then Some(0x04)
    else if name == "ISO_8859-2" then Some(0x05)
    else if name == "ISO-8859-3" then Some(0x06)
    else if name == "ISO-8859-4" then Some(0x07)
    else if name == "ISO-8859-5" then Some(0x08)
    else if name == "ISO-8859-6" then Some(0x09)
    else if name == "ISO-8859-7" then Some(0x0A)
    else if name == "ISO-8859-8" then Some(0x0B)
    else if name == "ISO-8859-9" then Some(0x0C)
    else if name == "ISO-8859-10" then Some(0x0D)
    else if name == "ISO-8859-15" then Some(0x6F)
    else if name == "SHIFT_JIS" then Some(0x11)
    else if name == "EUC-JP" then Some(0x13)
    else if name == "GB2312" then Some(0x07E9)
    else if name == "BIG5" then Some(0x0D)
    else if name == "WINDOWS-1251" then Some(0x08CB)
    else if name == "KOI8-R" then Some(0x0824)
    else if name == "KOI8-U" then Some(0x0828)
    else None
  }

  // ---------------------------------------------------------------------------------------
  // Where fields end
  // ---------------------------------------------------------------------------------------

  /** A position and how much of the declared length is left; less than nothing when a field
      crosses its end. */
  datatype Cursor = Cursor(pos: nat, left: int)

  /** Behind a text, which must not be empty. */
  function TextFieldEnd(d: seq<byte>, p: nat, left: int): (c: Option<Cursor>)
    ensures c.Some? ==> p < c.value.pos <= |d|
  {
    if p >= |d| || d[p] == 0 then None
    else Some(Cursor(AfterText(d, p), left - (TextEnd(d, p) - p) - 1))
  }

  /** A character set is spelled out or a number. */
  predicate SpelledAt(b: byte) {
    0x20 < b < 0x7F || b == 0
  }

  function CharsetFieldEnd(d: seq<byte>, p: nat, left: int): (c: Option<Cursor>)
    ensures c.Some? ==> p < c.value.pos <= |d|
  {
    if p >= |d| then None
    else if SpelledAt(d[p]) then
      if CharSetFromText(TextAt(d, p)).Some? then TextFieldEnd(d, p, left) else None
    else if IntegerAt(d, p) then Some(Cursor(IntegerEnd(d, p), left - (IntegerEnd(d, p) - p)))
    else None
  }

  function TypeFieldEnd(d: seq<byte>, p: nat, left: int): (c: Option<Cursor>)
    ensures c.Some? ==> p < c.value.pos <= |d|
  {
    if p >= |d| then None
    else if d[p] > 0x7F then Some(Cursor(p + 1, left - 1))
    else TextFieldEnd(d, p, left)
  }

  /** Behind the parameter at p, of which `left` octets may follow its own first. */
  function ParamEnd(d: seq<byte>, p: nat, left: nat): (c: Option<Cursor>)
    ensures c.Some? ==> p < c.value.pos <= |d|
  {
    if p >= |d| then None
    else if d[p] == CT_P_CHARSET then CharsetFieldEnd(d, p + 1, left)
    else if IsTextParam(d[p]) then TextFieldEnd(d, p + 1, left)
    else if IsTypeParam(d[p]) then TypeFieldEnd(d, p + 1, left)
    else if p + 1 + left <= |d| then Some(Cursor(p + 1 + left, 0))
    else None
  }

  /** What the parameters have set: the first text of each kind, the last character set and type. */
  datatype Record = Record(texts: map<byte, seq<byte>>, charset: nat, mediaType: ContentType)

  function RecordText(r: Record, code: byte, text: seq<byte>): Record {
    if code in r.texts then r else r.(texts := r.texts[code := text])
  }

  function RecordCharset(d: seq<byte>, p: nat, r: Record): Record
    requires CharsetFieldEnd(d, p, 0).Some?
  {
    if SpelledAt(d[p]) then r.(charset := CharSetFromText(TextAt(d, p)).value)
    else r.(charset := IntegerValue(d, p) % UINT32)
  }

  function RecordType(d: seq<byte>, p: nat, r: Record): Record
    requires TypeFieldEnd(d, p, 0).Some?
  {
    r.(mediaType := if d[p] > 0x7F then Assigned(d[p] % 128) else Spelled(TextAt(d, p)))
  }

  function RecordParam(d: seq<byte>, p: nat, left: nat, r: Record): Record
    requires ParamEnd(d, p, left).Some?
  {
    if d[p] == CT_P_CHARSET then RecordCharset(d, p + 1, r)
    else if IsTextParam(d[p]) then RecordText(r, d[p], TextAt(d, p + 1))
    else if IsTypeParam(d[p]) then RecordType(d, p + 1, r)
    else r
  }

  /** All parameters of a declared length: where they end and what they set. */
  function Params(d: seq<byte>, c: Cursor, r: Record): (e: Option<(Cursor, Record)>)
    requires c.pos <= |d|
    ensures e.Some? ==> c.pos <= e.value.0.pos <= |d| && e.value.0.left <= 0
    decreases |d| - c.pos
  {
    if c.left <= 0 then Some((c, r))
    else
      var next := ParamEnd(d, c.pos, c.left - 1);
      if next.None? then None else Params(d, next.value, RecordParam(d, c.pos, c.left - 1, r))
  }

  // ---------------------------------------------------------------------------------------
  // Conservation
  // ---------------------------------------------------------------------------------------

  /** The parameter at p ends in a text without its zero octet. */
  predicate RunsOff(d: seq<byte>, p: nat) {
    && p + 1 < |d| && TextEnd(d, p + 1) == |d|
    && (IsTextParam(d[p]) || (d[p] == CT_P_CHARSET && SpelledAt(d[p + 1])) || (IsTypeParam(d[p]) && d[p + 1] <= 0x7F))
  }

  /** The cursor moves by what is taken off the length, one less when a text runs off the buffer. */
  lemma ParamConserves(d: seq<byte>, p: nat, left: nat)
    requires ParamEnd(d, p, left).Some?
    ensures var c := ParamEnd(d, p, left).value;
            && c.pos + c.left == p + 1 + left - (if RunsOff(d, p) then 1 else 0)
            && (RunsOff(d, p) ==> c.pos == |d| && d[|d| - 1] != 0)
  {
    hide TextEnd, CharSetFromText, TextAt;
  }

  /** Over all parameters cursor plus remaining length stays the same, unless a text runs off the
      buffer, which ends in it. So the parameters end where their declared length ends exactly
      when they use it up, and behind it when the last one crosses its end. */
  lemma {:induction false} ParamsConserve(d: seq<byte>, c: Cursor, r: Record)
    requires c.pos <= |d| && Params(d, c, r).Some?
    ensures var e := Params(d, c, r).value.0;
            || e.pos + e.left == c.pos + c.left
            || (e.pos + e.left == c.pos + c.left - 1 && e.pos == |d| && d != [] && d[|d| - 1] != 0)
    decreases |d| - c.pos
  {
    hide ParamEnd, RecordParam, RunsOff;
    if c.left > 0 {
      var next := ParamEnd(d, c.pos, c.left - 1).value;
      ParamConserves(d, c.pos, c.left - 1);
      ParamsConserve(d, next, RecordParam(d, c.pos, c.left - 1, r));
      NoneAtEnd(d);
    }
  }

  lemma NoneAtEnd(d: seq<byte>)
    ensures forall left: nat :: ParamEnd(d, |d|, left).None?
  {
  }

  // ---------------------------------------------------------------------------------------
  // Parameters written and read
  // ---------------------------------------------------------------------------------------

  /** A parameter as a sender writes it. */
  datatype Param =
    | Text(code: byte, quoted: bool, text: seq<byte>)
    | CharsetName(name: seq<byte>)
    | CharsetShort(v: byte)
    | CharsetLong(octets: seq<byte>)
    | TypeAssigned(code: byte, v: byte)
    | TypeText(code: byte, quoted: bool, text: seq<byte>)

  /** Texts have no zero octet; an unquoted one is not empty and has no quote in front. */
  predicate Writable(quoted: bool, text: seq<byte>) {
    0 !in text && (quoted || (text != [] && text[0] != QUOTE))
  }

  predicate WellFormed(x: Param) {
    match x
    case Text(code, quoted, text) => IsTextParam(code) && Writable(quoted, text)
    case CharsetName(name) => Writable(false, name) && SpelledAt(name[0]) && CharSetFromText(name).Some?
    case CharsetShort(v) => v < 128
    case CharsetLong(octets) => 1 <= |octets| <= 8
    case TypeAssigned(code, v) => IsTypeParam(code) && v < 128
    case TypeText(code, quoted, text) => IsTypeParam(code) && Writable(quoted, text) && (quoted || text[0] <= 0x7F)
  }

  function WriteText(quoted: bool, text: seq<byte>): seq<byte> {
    (if quoted then [QUOTE] else []) + text + [0]
  }

  function Write(x: Param): (s: seq<byte>)
    requires WellFormed(x)
    ensures |s| >= 2
  {
    match x
    case Text(code, quoted, text) => [code] + WriteText(quoted, text)
    case CharsetName(name) => [CT_P_CHARSET] + WriteText(false, name)
    case CharsetShort(v) => [CT_P_CHARSET, 128 + v]
    case CharsetLong(octets) => [CT_P_CHARSET, |octets|] + octets
    case TypeAssigned(code, v) => [code, 128 + v]
    case TypeText(code, quoted, text) => [code] + WriteText(quoted, text)
  }

  function WriteAll(xs: seq<Param>): seq<byte>
    requires forall i :: 0 <= i < |xs| ==> WellFormed(xs[i])
  {
    if xs == [] then [] else Write(xs[0]) + WriteAll(xs[1..])
  }

  /** What a reader should learn from a parameter. */
  function Learn(x: Param, r: Record): Record
    requires WellFormed(x)
  {
    match x
    case Text(code, _, text) => RecordText(r, code, text)
    case CharsetName(name) => r.(charset := CharSetFromText(name).value)
    case CharsetShort(v) => r.(charset := v)
    case CharsetLong(octets) => r.(charset := BigEndian(octets) % UINT32)
    case TypeAssigned(_, v) => r.(mediaType := Assigned(v))
    case TypeText(_, _, text) => r.(mediaType := Spelled(text))
  }

  function LearnAll(xs: seq<Param>, r: Record): Record
    requires forall i :: 0 <= i < |xs| ==> WellFormed(xs[i])
  {
    if xs == [] then r else LearnAll(xs[1..], Learn(xs[0], r))
  }

  /** s stands in d at p. */
  ghost predicate At(d: seq<byte>, p: nat, s: seq<byte>) {
    p + |s| <= |d| && d[p..p + |s|] == s
  }

  lemma AtConcat(d: seq<byte>, p: nat, a: seq<byte>, b: seq<byte>)
    requires At(d, p, a + b)
    ensures At(d, p, a) && At(d, p + |a|, b)
  {
    assert d[p..p + |a|] == d[p..p + |a + b|][..|a|];
    assert d[p + |a|..p + |a| + |b|] == d[p..p + |a + b|][|a|..];
  }

  lemma AtOctet(d: seq<byte>, p: nat, s: seq<byte>, i: nat)
    requires At(d, p, s) && i < |s|
    ensures d[p + i] == s[i]
  {
    assert d[p..p + |s|][i] == s[i];
  }

  lemma TextEndIs(d: seq<byte>, p: nat, q: nat)
    requires p <= q < |d| && d[q] == 0 && forall i :: p <= i < q ==> d[i] != 0
    ensures TextEnd(d, p) == q
  {
    hide TextEnd;
  }

  lemma {:induction false} ReadText(d: seq<byte>, p: nat, quoted: bool, text: seq<byte>)
    requires At(d, p, WriteText(quoted, text)) && Writable(quoted, text)
    ensures p < |d| && d[p] != 0 && TextAt(d, p) == text
    ensures d[p] == if quoted then QUOTE else text[0]
    ensures TextEnd(d, p) == p + |WriteText(quoted, text)| - 1 < |d|
  {
    hide TextEnd;
    var s := WriteText(quoted, text);
    var q := p + |s| - 1;
    forall i | p <= i < q ensures d[i] != 0 {
      AtOctet(d, p, s, i - p);
      assert quoted && i > p ==> s[i - p] == text[i - p - 1];
    }
    AtOctet(d, p, s, |s| - 1);
    AtOctet(d, p, s, 0);
    TextEndIs(d, p, q);
    if quoted {
      TextEndIs(d, p + 1, q);
      assert s == [QUOTE] + (text + [0]);
      AtConcat(d, p, [QUOTE], text + [0]);
      AtConcat(d, p + 1, text, [0]);
    } else {
      assert s == text + [0];
      AtConcat(d, p, text, [0]);
    }
  }

  lemma {:induction false} ReadTextField(d: seq<byte>, p: nat, quoted: bool, text: seq<byte>, left: int)
    requires At(d, p, WriteText(quoted, text)) && Writable(quoted, text)
    ensures p < |d| && d[p] == (if quoted then QUOTE else text[0]) && TextAt(d, p) == text
    ensures TextFieldEnd(d, p, left) == Some(Cursor(p + |WriteText(quoted, text)|, left - |WriteText(quoted, text)|))
  {
    hide TextEnd, TextAt, WriteText;
    ReadText(d, p, quoted, text);
  }

  lemma {:induction false} ReadCharset(d: seq<byte>, p: nat, x: Param, left: int, r: Record)
    requires WellFormed(x) && (x.CharsetName? || x.CharsetShort? || x.CharsetLong?) && At(d, p, Write(x)[1..])
    ensures CharsetFieldEnd(d, p, left) == Some(Cursor(p + |Write(x)| - 1, left + 1 - |Write(x)|))
    ensures CharsetFieldEnd(d, p, 0).Some? && RecordCharset(d, p, r) == Learn(x, r)
  {
    hide TextEnd, CharSetFromText, TextAt, BigEndian, WriteText, TextFieldEnd;
    var s := Write(x)[1..];
    AtOctet(d, p, s, 0);
    match x
    case CharsetName(name) =>
      assert s == WriteText(false, name);
      ReadTextField(d, p, false, name, left);
      ReadTextField(d, p, false, name, 0);
    case CharsetShort(v) =>
    case CharsetLong(octets) =>
      assert s == [|octets|] + octets;
      AtConcat(d, p, [|octets|], octets);
  }

  lemma {:induction false} ReadType(d: seq<byte>, p: nat, x: Param, left: int, r: Record)
    requires WellFormed(x) && (x.TypeAssigned? || x.TypeText?) && At(d, p, Write(x)[1..])
    ensures TypeFieldEnd(d, p, left) == Some(Cursor(p + |Write(x)| - 1, left + 1 - |Write(x)|))
    ensures TypeFieldEnd(d, p, 0).Some? && RecordType(d, p, r) == Learn(x, r)
  {
    hide TextEnd, TextAt, WriteText, TextFieldEnd;
    var s := Write(x)[1..];
    AtOctet(d, p, s, 0);
    if x.TypeText? {
      assert s == WriteText(x.quoted, x.text);
      ReadTextField(d, p, x.quoted, x.text, left);
      ReadTextField(d, p, x.quoted, x.text, 0);
    }
  }

  /** Reading one parameter back. */
  lemma {:induction false} ReadParam(d: seq<byte>, p: nat, x: Param, left: nat, r: Record)
    requires WellFormed(x) && At(d, p, Write(x))
    ensures ParamEnd(d, p, left) == Some(Cursor(p + |Write(x)|, left + 1 - |Write(x)|))
    ensures RecordParam(d, p, left, r) == Learn(x, r)
  {
    hide TextFieldEnd, CharsetFieldEnd, TypeFieldEnd, RecordText, RecordCharset, RecordType, TextAt, WriteText, CharSetFromText, BigEndian, Writable;
    var s := Write(x);
    AtOctet(d, p, s, 0);
    assert s == s[..1] + s[1..];
    AtConcat(d, p, s[..1], s[1..]);
    if x.Text? {
      assert s[1..] == WriteText(x.quoted, x.text);
      ReadTextField(d, p + 1, x.quoted, x.text, left);
    } else if x.TypeAssigned? || x.TypeText? {
      ReadType(d, p + 1, x, left, r);
    } else {
      ReadCharset(d, p + 1, x, left, r);
    }
  }

  /** Section 8.4.2.4 of WAP-230-WSP: parameters that fill their declared length are all read, what
      they say is learnt, and the cursor stops exactly at the end of the length. */
  lemma {:induction false} ReadParams(d: seq<byte>, p: nat, xs: seq<Param>, r: Record)
    requires forall i :: 0 <= i < |xs| ==> WellFormed(xs[i])
    requires At(d, p, WriteAll(xs))
    ensures Params(d, Cursor(p, |WriteAll(xs)|), r) == Some((Cursor(p + |WriteAll(xs)|, 0), LearnAll(xs, r)))
    decreases |xs|
  {
    hide ParamEnd, RecordParam, Write, WellFormed, Learn;
    if xs != [] {
      var first := Write(xs[0]);
      AtConcat(d, p, first, WriteAll(xs[1..]));
      var left := |WriteAll(xs)| - 1;
      ReadParam(d, p, xs[0], left, r);
      ReadParams(d, p + |first|, xs[1..], Learn(xs[0], r));
    }
  }

  // ---------------------------------------------------------------------------------------
  // The content type
  // ---------------------------------------------------------------------------------------

  /** A 32-bit unsigned number passed where a signed one is expected. */
  function ToInt32(v: nat): int {
    if v < 0x8000_0000 then v else v - UINT32
  }

  datatype Decoded = Decoded(end: nat, contentType: ContentType, record: Record)

  /** The media type behind a value length: itself and what it leaves of the length. */
  function MediaType(d: seq<byte>, q: nat, length: nat): (m: Option<(Cursor, ContentType)>)
    ensures m.Some? ==> q < m.value.0.pos <= |d|
  {
    if q >= |d| then None
    else if d[q] > 0x7F then
      if length == 0 then None else Some((Cursor(q + 1, ToInt32(length - 1)), Assigned(d[q] % 128)))
    else if 0x20 <= d[q] then
      var len := TextEnd(d, q) - q;
      Some((Cursor(AfterText(d, q), ToInt32(if length < len + 1 then 0 else length - len - 1)), Spelled(TextAt(d, q))))
    else None
  }

  function GeneralForm(d: seq<byte>, p: nat, r: Record): (t: Option<Decoded>)
    ensures t.Some? ==> p < t.value.end <= |d|
  {
    if !ValueLengthAt(d, p) then None
    else
      var m := MediaType(d, ValueLengthEnd(d, p), ValueLengthValue(d, p));
      if m.None? then None
      else
        var e := Params(d, m.value.0, r);
        if e.None? then None else Some(Decoded(e.value.0.pos, m.value.1, e.value.1))
  }

  /** The octets of a general form as it declares them, in 32 bits. */
  function GeneralLength(d: seq<byte>, p: nat): int
    requires ValueLengthAt(d, p)
  {
    ToInt32((ValueLengthValue(d, p) + ValueLengthEnd(d, p) - p) % UINT32)
  }

  /** The content type at p: one octet, a text, or a value length with media type and parameters. */
  function ContentTypeAt(d: seq<byte>, p: nat, r: Record): (t: Option<Decoded>)
    ensures t.Some? ==> p < t.value.end <= |d|
  {
    if p < |d| && d[p] > 0x7F then Some(Decoded(p + 1, Assigned(d[p] % 128), r))
    else if p < |d| && d[p] >= 0x20 then Some(Decoded(AfterText(d, p), Spelled(TextAt(d, p)), r))
    else GeneralForm(d, p, r)
  }

  /** The length given back for a content type at p: what its first two forms take with the zero
      octet of a text, whether that is there or not, and what the third declares. */
  function LengthGiven(d: seq<byte>, p: nat): int
    requires p < |d| && (d[p] >= 0x20 || ValueLengthAt(d, p))
  {
    if d[p] > 0x7F then 1 else if d[p] >= 0x20 then TextEnd(d, p) - p + 1 else GeneralLength(d, p)
  }

  class SmsWapPushContentType {
    var contentType: ContentType
    var charset: nat
    var mediaType: ContentType
    var textParameterMap: map<byte, seq<byte>>

    constructor ()
      ensures contentType == Spelled([]) && Rec() == Record(map[], 0, Spelled([]))
    {
      contentType, charset, mediaType, textParameterMap := Spelled([]), 0, Spelled([]), map[];
    }

    ghost function Rec(): Record
      reads this
    {
      Record(textParameterMap, charset, mediaType)
    }

    method DecodeTextField(buffer: SmsWapPushBuffer, field: byte, valueLength: int) returns (ok: bool, left: int)
      requires buffer.Valid()
      modifies this`textParameterMap, buffer`curPosition
      ensures buffer.Valid()
      ensures var c := TextFieldEnd(buffer.pduBuffer, old(buffer.curPosition), valueLength);
              && (ok <==> c.Some?)
              && (ok ==> Cursor(buffer.curPosition, left) == c.value)
      ensures ok ==> Rec() == RecordText(old(Rec()), field, TextAt(buffer.pduBuffer, old(buffer.curPosition)))
    {
      hide TextEnd, TextAt;
      left := valueLength;
      var str, len;
      ok, str, len := buffer.DecodeText();
      if !ok {
        return;
      }
      if field !in textParameterMap {
        textParameterMap := textParameterMap[field := str];
      }
      left := left - len;
      left := left - 1;
    }

    method DecodeCharsetField(buffer: SmsWapPushBuffer, valueLength: int) returns (ok: bool, left: int)
      requires buffer.Valid()
      modifies this`charset, buffer`curPosition
      ensures buffer.Valid()
      ensures var c := CharsetFieldEnd(buffer.pduBuffer, old(buffer.curPosition), valueLength);
              && (ok <==> c.Some?)
              && (ok ==> Cursor(buffer.curPosition, left) == c.value)
      ensures ok ==> && CharsetFieldEnd(buffer.pduBuffer, old(buffer.curPosition), 0).Some?
                     && Rec() == RecordCharset(buffer.pduBuffer, old(buffer.curPosition), old(Rec()))
    {
      hide TextEnd, TextAt, CharSetFromText, BigEndian;
      left := valueLength;
      var oneByte;
      ok, oneByte := buffer.PeekOneByte();
      if !ok {
        return;
      }
      if SpelledAt(oneByte) {
        var sCharset, len;
        ok, sCharset, len := buffer.DecodeText();
        if !ok {
          return;
        }
        left := left - (len + 1);
        var tmpCharSet := CharSetFromText(sCharset);
        if tmpCharSet.None? {
          return false, left;
        }
        charset := tmpCharSet.value;
      } else {
        var startPosition := buffer.curPosition;
        var temp;
        ok, temp := buffer.DecodeInteger();
        if !ok {
          return;
        }
        charset := temp % UINT32;
        left := left - (buffer.curPosition - startPosition);
      }
    }

    method DecodeTypeField(buffer: SmsWapPushBuffer, valueLength: int) returns (ok: bool, left: int)
      requires buffer.Valid()
      modifies this`mediaType, buffer`curPosition
      ensures buffer.Valid()
      ensures var c := TypeFieldEnd(buffer.pduBuffer, old(buffer.curPosition), valueLength);
              && (ok <==> c.Some?)
              && (ok ==> Cursor(buffer.curPosition, left) == c.value)
      ensures ok ==> && TypeFieldEnd(buffer.pduBuffer, old(buffer.curPosition), 0).Some?
                     && Rec() == RecordType(buffer.pduBuffer, old(buffer.curPosition), old(Rec()))
    {
      hide TextEnd, TextAt;
      left := valueLength;
      var oneByte;
      ok, oneByte := buffer.GetOneByte();
      if !ok {
        return;
      }
      if oneByte > 0x7F {
        mediaType := Assigned(oneByte % 128);
        left := left - 1;
      } else {
        ok := buffer.DecreasePointer(1);
        var sType, len;
        ok, sType, len := buffer.DecodeText();
        if !ok {
          return;
        }
        left := left - len;
        left := left - 1;
        mediaType := Spelled(sType);
      }
    }

    /** One round of the parameter loop. */
    method DecodeOneParameter(buffer: SmsWapPushBuffer, valueLength: int) returns (ok: bool, left: int)
      requires buffer.Valid() && valueLength > 0
      modifies this`charset, this`mediaType, this`textParameterMap, buffer`curPosition
      ensures buffer.Valid()
      ensures var c := ParamEnd(buffer.pduBuffer, old(buffer.curPosition), valueLength - 1);
              && (ok <==> c.Some?)
              && (ok ==> Cursor(buffer.curPosition, left) == c.value)
      ensures ok ==> Rec() == RecordParam(buffer.pduBuffer, old(buffer.curPosition), valueLength - 1, old(Rec()))
    {
      hide TextFieldEnd, CharsetFieldEnd, TypeFieldEnd, RecordText, RecordCharset, RecordType, TextAt;
      left := valueLength;
      var paramCode;
      ok, paramCode := buffer.GetOneByte();
      if !ok {
        return;
      }
      left := left - 1;
      if paramCode == CT_P_CHARSET {
        ok, left := DecodeCharsetField(buffer, left);
      } else if IsTextParam(paramCode) {
        ok, left := DecodeTextField(buffer, paramCode, left);
      } else if IsTypeParam(paramCode) {
        ok, left := DecodeTypeField(buffer, left);
      } else {
        ok := buffer.IncreasePointer(left);
        if !ok {
          return;
        }
        left := 0;
      }
    }

    /** Reads parameters until the declared length is used up; every round moves the cursor. */
    method DecodeParameter(buffer: SmsWapPushBuffer, length: int) returns (ok: bool)
      requires buffer.Valid()
      modifies this`charset, this`mediaType, this`textParameterMap, buffer`curPosition
      ensures buffer.Valid()
      ensures var e := Params(buffer.pduBuffer, Cursor(old(buffer.curPosition), length), old(Rec()));
              && (ok <==> e.Some?)
              && (ok ==> buffer.curPosition == e.value.0.pos && Rec() == e.value.1)
    {
      hide ParamEnd, RecordParam;
      var valueLength := length;
      ok := true;
      ghost var d, whole := buffer.pduBuffer, Params(buffer.pduBuffer, Cursor(buffer.curPosition, length), Rec());
      while valueLength > 0
        invariant buffer.Valid() && buffer.pduBuffer == d
        invariant ok && whole == Params(d, Cursor(buffer.curPosition, valueLength), Rec())
        decreases |d| - buffer.curPosition
      {
        ghost var at, r := buffer.curPosition, Rec();
        ParamsStep(d, Cursor(at, valueLength), r);
        ok, valueLength := DecodeOneParameter(buffer, valueLength);
        if !ok {
          return;
        }
      }
    }

    method DecodeCTGeneralForm(buffer: SmsWapPushBuffer) returns (ok: bool, contentLength: int)
      requires buffer.Valid()
      modifies this, buffer`curPosition
      ensures buffer.Valid()
      ensures (old(buffer.curPosition) < |buffer.pduBuffer| ==> buffer.pduBuffer[old(buffer.curPosition)] <= 0x1F) ==>
                var t := GeneralForm(buffer.pduBuffer, old(buffer.curPosition), old(Rec()));
                && (ok <==> t.Some?)
                && (ok ==> t.value == Decoded(buffer.curPosition, contentType, Rec()))
                && (ok ==> contentLength == GeneralLength(buffer.pduBuffer, old(buffer.curPosition)))
    {
      hide Params, ValueLengthAt, ValueLengthEnd, ValueLengthValue, TextEnd, TextAt;
      contentLength := 0;
      ok := buffer.DecodeIsValueLength();
      if !ok {
        return;
      }
      var valueLength, returnLength;
      ok, valueLength, returnLength := buffer.DecodeValueLengthReturnLen();
      if !ok {
        return;
      }
      contentLength := ToInt32((valueLength + returnLength) % UINT32);
      var oneByte;
      ok, oneByte := buffer.PeekOneByte();
      if !ok {
        return;
      }
      var isShort := buffer.DecodeIsShortInt();
      var isString := buffer.DecodeIsString();
      if isShort {
        contentType := Assigned(oneByte % 128);
        ok := buffer.IncreasePointer(1);
        if valueLength == 0 {
          return false, contentLength;
        }
        valueLength := valueLength - 1;
      } else if isString {
        var _, sType, len := buffer.DecodeText();
        valueLength := if valueLength < len + 1 then 0 else valueLength - len - 1;
        contentType := Spelled(sType);
      } else {
        return false, contentLength;
      }
      ok := DecodeParameter(buffer, ToInt32(valueLength));
    }

    /** The length given back is that of what was read for the first two forms, and the declared one
        for the third. */
    method DecodeContentType(buffer: SmsWapPushBuffer) returns (ok: bool, contentLength: int)
      requires buffer.Valid()
      modifies this, buffer`curPosition
      ensures buffer.Valid()
      ensures var t := ContentTypeAt(buffer.pduBuffer, old(buffer.curPosition), old(Rec()));
              && (ok <==> t.Some?)
              && (ok ==> t.value == Decoded(buffer.curPosition, contentType, Rec()))
              && (ok ==> contentLength == LengthGiven(buffer.pduBuffer, old(buffer.curPosition)))
    {
      hide GeneralLength, GeneralForm, TextEnd, TextAt;
      contentLength := 0;
      var isShort := buffer.DecodeIsShortInt();
      if isShort {
        var oneByte;
        ok, oneByte := buffer.GetOneByte();
        contentType := Assigned(oneByte % 128);
        return true, 1;
      }
      var isString := buffer.DecodeIsString();
      if isString {
        var _, sType, len := buffer.DecodeText();
        contentType := Spelled(sType);
        return true, len + 1;
      }
      ok, contentLength := DecodeCTGeneralForm(buffer);
    }
  }

  lemma {:induction false} ParamsStep(d: seq<byte>, c: Cursor, r: Record)
    requires c.pos <= |d| && c.left > 0
    ensures var next := ParamEnd(d, c.pos, c.left - 1);
            Params(d, c, r) == if next.None? then None else Params(d, next.value, RecordParam(d, c.pos, c.left - 1, r))
  {
    hide ParamEnd, RecordParam;
  }

  /** Section 8.4.2.2 of WAP-230-WSP: a short length, or a quote and a number. */
  function WriteLength(length: nat): seq<byte> {
    if length <= 30 then [length] else [LENGTH_QUOTE] + EncodeUintvar(length)
  }

  lemma {:induction false} ReadLength(d: seq<byte>, p: nat, length: nat)
    requires At(d, p, WriteLength(length)) && length < UINT32
    ensures ValueLengthAt(d, p) && ValueLengthEnd(d, p) == p + |WriteLength(length)| && ValueLengthValue(d, p) == length
  {
    hide UintvarLast, UintvarValue, UintvarHead;
    var s := WriteLength(length);
    AtOctet(d, p, s, 0);
    if length > 30 {
      var code := EncodeUintvar(length);
      AtConcat(d, p, [LENGTH_QUOTE], code);
      var before, after := d[..p + 1], d[p + 1 + |code|..];
      assert d == before + code + after;
      UintvarRoundTrip(length, before, after);
    }
  }

  /** A content type in its general form is read as it was written, to its last octet. */
  lemma {:induction false} ReadGeneralForm(d: seq<byte>, p: nat, v: byte, xs: seq<Param>, r: Record)
    requires v < 128 && forall i :: 0 <= i < |xs| ==> WellFormed(xs[i])
    requires 1 + |WriteAll(xs)| < 0x8000_0000
    requires At(d, p, WriteLength(1 + |WriteAll(xs)|) + ([128 + v] + WriteAll(xs)))
    ensures var all := WriteLength(1 + |WriteAll(xs)|) + ([128 + v] + WriteAll(xs));
            ContentTypeAt(d, p, r) == Some(Decoded(p + |all|, Assigned(v), LearnAll(xs, r)))
  {
    hide Params, WriteAll, LearnAll, ValueLengthAt, ValueLengthEnd, ValueLengthValue, WriteLength, ContentTypeAt;
    var length, rest := WriteLength(1 + |WriteAll(xs)|), [128 + v] + WriteAll(xs);
    AtConcat(d, p, length, rest);
    ReadLength(d, p, 1 + |WriteAll(xs)|);
    var q := p + |length|;
    AtConcat(d, q, [128 + v], WriteAll(xs));
    AtOctet(d, q, rest, 0);
    ReadParams(d, q + 1, xs, r);
    GeneralIs(d, p, v, r);
  }

  lemma {:induction false} GeneralIs(d: seq<byte>, p: nat, v: byte, r: Record)
    requires ValueLengthAt(d, p) && 0 < ValueLengthValue(d, p) < 0x8000_0000 && v < 128
    requires ValueLengthEnd(d, p) < |d| && d[ValueLengthEnd(d, p)] == 128 + v
    ensures var e := Params(d, Cursor(ValueLengthEnd(d, p) + 1, ValueLengthValue(d, p) - 1), r);
            ContentTypeAt(d, p, r) == if e.None? then None else Some(Decoded(e.value.0.pos, Assigned(v), e.value.1))
  {
    hide Params, ValueLengthEnd, ValueLengthValue, TextEnd, TextAt, UintvarLast;
  }

  // ---------------------------------------------------------------------------------------
  // Every form of a content type, written and read
  // ---------------------------------------------------------------------------------------

  /** A content type as a sender writes it: one octet, a text, or a general form with an assigned or a
      spelled media type and parameters. */
  datatype Form =
    | OneOctet(v: byte)
    | OneText(quoted: bool, text: seq<byte>)
    | GeneralNumber(v: byte, params: seq<Param>)
    | GeneralText(quoted: bool, text: seq<byte>, params: seq<Param>)

  /** A text that starts like one. */
  predicate TextLike(quoted: bool, text: seq<byte>) {
    Writable(quoted, text) && (quoted || 0x20 <= text[0] <= 0x7F)
  }

  ghost predicate FormOk(f: Form) {
    match f
    case OneOctet(v) => v < 128
    case OneText(quoted, text) => TextLike(quoted, text)
    case GeneralNumber(v, params) =>
      v < 128 && (forall i :: 0 <= i < |params| ==> WellFormed(params[i])) && 1 + |WriteAll(params)| < 0x8000_0000
    case GeneralText(quoted, text, params) =>
      && TextLike(quoted, text) && (forall i :: 0 <= i < |params| ==> WellFormed(params[i]))
      && |WriteText(quoted, text)| + |WriteAll(params)| < 0x8000_0000
  }

  ghost function WriteForm(f: Form): seq<byte>
    requires FormOk(f)
  {
    match f
    case OneOctet(v) => [128 + v]
    case OneText(quoted, text) => WriteText(quoted, text)
    case GeneralNumber(v, params) => WriteLength(1 + |WriteAll(params)|) + ([128 + v] + WriteAll(params))
    case GeneralText(quoted, text, params) =>
      WriteLength(|WriteText(quoted, text)| + |WriteAll(params)|) + (WriteText(quoted, text) + WriteAll(params))
  }

  function TypeOf(f: Form): ContentType {
    match f
    case OneOctet(v) => Assigned(v)
    case OneText(_, text) => Spelled(text)
    case GeneralNumber(v, _) => Assigned(v)
    case GeneralText(_, text, _) => Spelled(text)
  }

  ghost function Learnt(f: Form, r: Record): Record
    requires FormOk(f)
  {
    match f
    case OneOctet(_) => r
    case OneText(_, _) => r
    case GeneralNumber(_, params) => LearnAll(params, r)
    case GeneralText(_, _, params) => LearnAll(params, r)
  }

  lemma {:induction false} ReadOctet(d: seq<byte>, p: nat, v: byte, r: Record)
    requires v < 128 && At(d, p, [128 + v])
    ensures ContentTypeAt(d, p, r) == Some(Decoded(p + 1, Assigned(v), r))
  {
    hide GeneralForm, TextEnd, TextAt;
    AtOctet(d, p, [128 + v], 0);
  }

  lemma {:induction false} ReadChars(d: seq<byte>, p: nat, quoted: bool, text: seq<byte>, r: Record)
    requires TextLike(quoted, text) && At(d, p, WriteText(quoted, text))
    ensures ContentTypeAt(d, p, r) == Some(Decoded(p + |WriteText(quoted, text)|, Spelled(text), r))
  {
    hide GeneralForm, TextEnd, TextAt, WriteText;
    ReadText(d, p, quoted, text);
  }

  lemma {:induction false} ReadPlaces(d: seq<byte>, p: nat, n: nat, media: seq<byte>, all: seq<byte>)
    requires n < UINT32 && At(d, p, WriteLength(n) + (media + all))
    ensures ValueLengthAt(d, p) && ValueLengthEnd(d, p) == p + |WriteLength(n)| && ValueLengthValue(d, p) == n
    ensures At(d, p + |WriteLength(n)|, media) && At(d, p + |WriteLength(n)| + |media|, all)
  {
    hide At, WriteLength, ValueLengthAt, ValueLengthEnd, ValueLengthValue;
    AtConcat(d, p, WriteLength(n), media + all);
    ReadLength(d, p, n);
    AtConcat(d, p + |WriteLength(n)|, media, all);
  }

  /** A general form with a spelled media type. */
  lemma {:induction false} ReadGeneralText(d: seq<byte>, p: nat, quoted: bool, text: seq<byte>, xs: seq<Param>, r: Record)
    requires TextLike(quoted, text) && forall i :: 0 <= i < |xs| ==> WellFormed(xs[i])
    requires |WriteText(quoted, text)| + |WriteAll(xs)| < 0x8000_0000
    requires At(d, p, WriteLength(|WriteText(quoted, text)| + |WriteAll(xs)|) + (WriteText(quoted, text) + WriteAll(xs)))
    ensures var end := p + |WriteLength(|WriteText(quoted, text)| + |WriteAll(xs)|)| + |WriteText(quoted, text)| + |WriteAll(xs)|;
            ContentTypeAt(d, p, r) == Some(Decoded(end, Spelled(text), LearnAll(xs, r)))
  {
    hide Params, WriteAll, LearnAll, ValueLengthAt, ValueLengthEnd, ValueLengthValue, WriteLength, ContentTypeAt, WriteText;
    hide At, TextEnd, TextAt, WellFormed;
    var media, all := WriteText(quoted, text), WriteAll(xs);
    ReadPlaces(d, p, |media| + |all|, media, all);
    var q := ValueLengthEnd(d, p);
    ReadText(d, q, quoted, text);
    ReadParams(d, q + |media|, xs, r);
    GeneralTextIs(d, p, |media|, text, r);
  }

  lemma {:induction false} GeneralTextIs(d: seq<byte>, p: nat, size: nat, text: seq<byte>, r: Record)
    requires ValueLengthAt(d, p) && size <= ValueLengthValue(d, p) < 0x8000_0000
    requires var q := ValueLengthEnd(d, p);
             q < |d| && 0x20 <= d[q] <= 0x7F && TextEnd(d, q) + 1 == q + size <= |d| && TextAt(d, q) == text
    ensures var q := ValueLengthEnd(d, p);
            var e := Params(d, Cursor(q + size, ValueLengthValue(d, p) - size), r);
            ContentTypeAt(d, p, r) == if e.None? then None else Some(Decoded(e.value.0.pos, Spelled(text), e.value.1))
  {
    hide Params, ValueLengthEnd, ValueLengthValue, TextEnd, TextAt, UintvarLast;
  }

  /** Every form of a content type is read as it was written, to its last octet. */
  lemma {:induction false} ReadForm(d: seq<byte>, p: nat, f: Form, r: Record)
    requires FormOk(f) && At(d, p, WriteForm(f))
    ensures ContentTypeAt(d, p, r) == Some(Decoded(p + |WriteForm(f)|, TypeOf(f), Learnt(f, r)))
  {
    hide ContentTypeAt, WriteAll, LearnAll, At, WriteText, WriteLength;
    match f
    case OneOctet(v) => ReadOctet(d, p, v, r);
    case OneText(quoted, text) => ReadChars(d, p, quoted, text, r);
    case GeneralNumber(v, params) => ReadGeneralForm(d, p, v, params, r);
    case GeneralText(quoted, text, params) => ReadGeneralText(d, p, quoted, text, params, r);
  }

  /** Declared lengths that do not match what follows. No length at all refuses a media type by number;
      a length too short for a spelled media type, and one of 2^31 or more behind it, leave no
      parameters to be read; an octet that starts neither is refused. */
  lemma {:induction false} OddLengths(d: seq<byte>, p: nat, r: Record)
    requires p < |d| && d[p] <= 31 && ValueLengthAt(d, p) && ValueLengthEnd(d, p) < |d|
    ensures var q, length, t := ValueLengthEnd(d, p), ValueLengthValue(d, p), ContentTypeAt(d, p, r);
            && (d[q] >= 128 && length == 0 ==> t.None?)
            && (d[q] >= 128 && length > 0x8000_0000 ==> t == Some(Decoded(q + 1, Assigned(d[q] - 128), r)))
            && (0x20 <= d[q] < 128 && (length <= AfterText(d, q) - q || length >= 0x8000_0000 + |d|) ==>
                  t == Some(Decoded(AfterText(d, q), Spelled(TextAt(d, q)), r)))
            && (d[q] < 0x20 ==> t.None?)
  {
    hide ValueLengthEnd, ValueLengthValue, ValueLengthAt, TextEnd, TextAt;
    var q, length := ValueLengthEnd(d, p), ValueLengthValue(d, p);
    assert length < UINT32 by { LengthFits(d, p); }
  }

  lemma LengthFits(d: seq<byte>, p: nat)
    requires ValueLengthAt(d, p)
    ensures ValueLengthValue(d, p) < UINT32
  {
    hide UintvarValue;
  }

  /** A text parameter that has been learnt stays; of several of one kind the first counts. */
  lemma {:induction false} FirstTextCounts(xs: seq<Param>, r: Record, code: byte)
    requires (forall i :: 0 <= i < |xs| ==> WellFormed(xs[i])) && code in r.texts
    ensures code in LearnAll(xs, r).texts && LearnAll(xs, r).texts[code] == r.texts[code]
    decreases |xs|
  {
    if xs != [] {
      assert WellFormed(xs[0]);
      hide WellFormed;
      FirstTextCounts(xs[1..], Learn(xs[0], r), code);
    }
  }

  lemma {:induction false} TextLearnt(x: Param, xs: seq<Param>, r: Record)
    requires WellFormed(x) && x.Text? && x.code !in r.texts && forall i :: 0 <= i < |xs| ==> WellFormed(xs[i])
    ensures var all := LearnAll(xs, Learn(x, r)); x.code in all.texts && all.texts[x.code] == x.text
  {
    hide WellFormed, LearnAll;
    assert Learn(x, r).texts == r.texts[x.code := x.text];
    FirstTextCounts(xs, Learn(x, r), x.code);
  }
}
