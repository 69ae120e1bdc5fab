/** The Debug rendering of a charset (impl Debug for Charset): printable ASCII bytes
    appear as themselves, every other byte as a lower-case `\xNN` escape. */
module CharsetDebug {
  import opened Bytes
  import opened Wrappers

  /** Rust's u8::is_ascii_graphic: '!' (0x21) through '~' (0x7E); space is not graphic. */
  predicate IsAsciiGraphic(b: int)
  {
    0x21 <= b <= 0x7E
  }

  /** The digits of `{:02x}`. */
  const HexDigits: string := "0123456789abcdef"

  const Backslash: byte := 0x5C

  /** The text written for one byte: one character or a four-character escape. */
  function RenderByte(b: byte): (s: string)
    ensures |s| == 1 || |s| == 4
    ensures forall k :: 0 <= k < |s| ==> IsAsciiGraphic(s[k] as int)
    ensures |s| == 1 <==> IsAsciiGraphic(b)
  {
    if IsAsciiGraphic(b) then [b as char]
    else ['\\', 'x', HexDigits[b / 16], HexDigits[b % 16]]
  }

  /** The whole rendering: the byte renderings one after the other. The result is
      printable ASCII only and between one and four characters per byte. */
  function Render(cs: seq<byte>): (s: string)
    ensures forall k :: 0 <= k < |s| ==> IsAsciiGraphic(s[k] as int)
    ensures |cs| <= |s| <= 4 * |cs|
  {
    if |cs| == 0 then "" else RenderByte(cs[0]) + Render(cs[1..])
  }

  /** The value of one lower-case hexadecimal digit. */
  function HexValue(c: char): (v: Option<nat>)
    ensures v.Some? ==> v.value < 16 && HexDigits[v.value] == c
  {
    if '0' <= c <= '9' then Some(c as int - '0' as int)
    else if 'a' <= c <= 'f' then Some(c as int - 'a' as int + 10)
    else None
  }

  /** Reads a rendering back into bytes; None when the text is not a rendering. */
  function Parse(s: string): (r: Option<seq<byte>>)
    decreases |s|
  {
    if |s| == 0 then Some([])
    else if s[0] == '\\' then
      if |s| >= 4 && s[1] == 'x' && HexValue(s[2]).Some? && HexValue(s[3]).Some? then
        match Parse(s[4..])
        case Some(rest) => Some([(16 * HexValue(s[2]).value + HexValue(s[3]).value) as byte] + rest)
        case None => None
      else None
    else if IsAsciiGraphic(s[0] as int) then
      match Parse(s[1..])
      case Some(rest) => Some([s[0] as int as byte] + rest)
      case None => None
    else None
  }

  lemma HexRoundTrip(d: nat)
    requires d < 16
    ensures HexValue(HexDigits[d]) == Some(d)
  {
  }

  /** Parsing reads one byte rendering off the front of the text. */
  lemma ParseRenderByte(b: byte, tail: string, rest: seq<byte>)
    requires b != Backslash && Parse(tail) == Some(rest)
    ensures Parse(RenderByte(b) + tail) == Some([b] + rest)
  {
    var t := RenderByte(b) + tail;
    if IsAsciiGraphic(b) {
      assert t[1..] == tail;
    } else {
      HexRoundTrip(b / 16);
      HexRoundTrip(b % 16);
      assert t[0] == '\\' && t[1] == 'x';
      assert t[2] == HexDigits[b / 16] && t[3] == HexDigits[b % 16];
      assert t[4..] == tail;
      assert 16 * (b / 16) + b % 16 == b;
    }
  }

  /** A charset without a backslash byte is recovered exactly from its rendering. */
  lemma {:induction false} ParseRender(cs: seq<byte>)
    requires forall k :: 0 <= k < |cs| ==> cs[k] != Backslash
    ensures Parse(Render(cs)) == Some(cs)
    decreases |cs|
  {
    if |cs| > 0 {
      ParseRender(cs[1..]);
      ParseRenderByte(cs[0], Render(cs[1..]), cs[1..]);
      assert [cs[0]] + cs[1..] == cs;
    }
  }

  /** A backslash byte is written unescaped, so the rendering is ambiguous: the
      bytes `\`, `x`, `0`, `1` render exactly like the single byte 0x01. */
  lemma RenderAmbiguous()
    ensures Render([Backslash, 0x78, 0x30, 0x31]) == Render([0x01])
    ensures [Backslash, 0x78, 0x30, 0x31] != [0x01]
  {
    assert Render([0x31]) == "1";
    assert Render([0x30, 0x31]) == "01";
    assert Render([0x78, 0x30, 0x31]) == "x01";
    assert RenderByte(0x01) == "\\x01";
  }
}
