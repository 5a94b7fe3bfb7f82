// Identifiers, style and state bits, messages and message-parameter packing
// of the exostra engine (include/exostra.h).
module Messages {
  import opened Geometry

  datatype Option<T> = None | Some(value: T)

  type WindowID = x: int | 0 <= x < 0x100
  const WID_INVALID: WindowID := 0

  type Style = bv16

  /** uint32 message parameters and their uint16 halves. */
  type MsgParam = x: int | 0 <= x < 0x1_0000_0000
  type MsgParamWord = x: int | 0 <= x < 0x1_0000

  /** millis(): a wrapping 32-bit millisecond clock, passed in as a value. */
  type Millis = x: int | 0 <= x < 0x1_0000_0000

  /** `now - since` in uint32 arithmetic. */
  function Elapsed(now: Millis, since: Millis): (d: Millis)
    ensures since <= now ==> d == now - since
    ensures now < since ==> d == now - since + 0x1_0000_0000
  {
    (now - since) % 0x1_0000_0000
  }

  /** bitsHigh: every bit of `bits` is set in `mask`. */
  predicate BitsHigh(mask: bv16, bits: bv16) {
    mask & bits == bits
  }

  const STY_VISIBLE: Style := 0x0001
  const STY_CHILD: Style := 0x0002
  const STY_FRAME: Style := 0x0004
  const STY_SHADOW: Style := 0x0008
  const STY_TOPLEVEL: Style := 0x0010 | STY_FRAME | STY_SHADOW
  const STY_AUTOSIZE: Style := 0x0020
  const STY_FULLSCREEN: Style := 0x0040
  const STY_BUTTON: Style := 0x0080
  const STY_LABEL: Style := 0x0100
  const STY_PROMPT: Style := 0x0200 | STY_TOPLEVEL
  const STY_PROGBAR: Style := 0x0400
  const STY_CHECKBOX: Style := 0x0800

  const INPUT_TAP: MsgParamWord := 1
  const EVT_CHILD_TAPPED: MsgParamWord := 1

  datatype Message =
    | MsgNone | MsgCreate | MsgDestroy | MsgDraw | MsgPostDraw | MsgInput | MsgEvent | MsgResize

  /** The numeric value of each message: MSG_NONE = 0 up to MSG_RESIZE = 7. */
  function MessageCode(m: Message): (code: nat)
    ensures code < 8
    ensures code == 0 <==> m.MsgNone?
  {
    match m
    case MsgNone => 0
    case MsgCreate => 1
    case MsgDestroy => 2
    case MsgDraw => 3
    case MsgPostDraw => 4
    case MsgInput => 5
    case MsgEvent => 6
    case MsgResize => 7
  }

  /** The message an integer names, if any: the enumeration read backwards. */
  function MessageOfCode(c: int): (m: Option<Message>)
    ensures m.Some? <==> 0 <= c < 8
  {
    if c == 0 then Some(MsgNone)
    else if c == 1 then Some(MsgCreate)
    else if c == 2 then Some(MsgDestroy)
    else if c == 3 then Some(MsgDraw)
    else if c == 4 then Some(MsgPostDraw)
    else if c == 5 then Some(MsgInput)
    else if c == 6 then Some(MsgEvent)
    else if c == 7 then Some(MsgResize)
    else None
  }

  /** Every message's code names that message back, and every code below 8
      names a message carrying that code: the enumeration numbers the
      messages densely, each with its own value. */
  lemma {:induction false} MessageCodeRoundTrip(m: Message, c: int)
    ensures MessageOfCode(MessageCode(m)) == Some(m)
    ensures MessageOfCode(c).Some? ==> MessageCode(MessageOfCode(c).value) == c
  {
  }

  /** Distinct messages have distinct codes. */
  lemma MessageCodeInjective(a: Message, b: Message)
    ensures MessageCode(a) == MessageCode(b) <==> a == b
  {
    MessageCodeRoundTrip(a, 0);
    MessageCodeRoundTrip(b, 0);
  }

  datatype PackagedMessage = PackagedMessage(msg: Message, p1: MsgParam, p2: MsgParam)

  /** makeMsgParam: the high word shifted into bits 16..31, the low word in
      bits 0..15. */
  function MakeMsgParam(hi: MsgParamWord, lo: MsgParamWord): MsgParam
  {
    hi * 0x1_0000 + lo
  }

  /** getMsgParamHiWord: `(p >> 16) & 0xffff`. */
  function HiWord(p: MsgParam): MsgParamWord
  {
    (p / 0x1_0000) % 0x1_0000
  }

  /** getMsgParamLoWord: `p & 0xffff`. */
  function LoWord(p: MsgParam): MsgParamWord
  {
    p % 0x1_0000
  }

  /** A Coord passed where a MsgParamWord is expected (int16 to uint16). */
  function CoordToWord(c: Coord): MsgParamWord
  {
    if c >= 0 then c else c + 0x1_0000
  }

  /** A MsgParamWord stored into a Coord (uint16 to int16). */
  function WordToCoord(w: MsgParamWord): Coord
  {
    Wrap16(w)
  }

  /** Unpacking a packed parameter gives back both words. */
  lemma UnpackMake(hi: MsgParamWord, lo: MsgParamWord)
    ensures HiWord(MakeMsgParam(hi, lo)) == hi
    ensures LoWord(MakeMsgParam(hi, lo)) == lo
  {
  }

  /** Packing the two words of a parameter gives back the parameter. */
  lemma MakeUnpack(p: MsgParam)
    ensures MakeMsgParam(HiWord(p), LoWord(p)) == p
  {
  }

  /** A coordinate survives the trip through a message word... */
  lemma CoordWordRoundTrip(c: Coord)
    ensures WordToCoord(CoordToWord(c)) == c
  {
  }

  /** ...and so does a word through a coordinate. */
  lemma WordCoordRoundTrip(w: MsgParamWord)
    ensures CoordToWord(WordToCoord(w)) == w
  {
  }

  /** Two points packed into INPUT parameters unpack to the same coordinates:
      what onInput recovers from processInput's message. */
  lemma InputParamsRoundTrip(x: Coord, y: Coord)
    ensures WordToCoord(HiWord(MakeMsgParam(CoordToWord(x), CoordToWord(y)))) == x
    ensures WordToCoord(LoWord(MakeMsgParam(CoordToWord(x), CoordToWord(y)))) == y
    ensures LoWord(MakeMsgParam(0, INPUT_TAP)) == INPUT_TAP
  {
    UnpackMake(CoordToWord(x), CoordToWord(y));
    UnpackMake(0, INPUT_TAP);
  }
}
