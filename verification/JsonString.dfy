/** JSON string escaping as the program's serializer emits it (section 7 of
    RFC 8259, section 3.2.2.2 of RFC 8785), and UTF-16 code units. */
module JsonString {

  function HexChar(d: nat): char
    requires d < 16
  {
    if d < 10 then ('0' as int + d) as char else ('a' as int + (d - 10)) as char
  }

  function Hex4(u: nat): (s: string)
    requires u <= 0xFFFF
    ensures |s| == 4
  {
    [HexChar(u / 0x1000), HexChar(u / 0x100 % 16), HexChar(u / 0x10 % 16), HexChar(u % 16)]
  }

  /** Shorthand escapes, `\u00xx` for the other control characters, and every
      other character verbatim. */
  function EscapeChar(c: char): (s: string)
    ensures s != ""
  {
    if c == '"' then ['\\', '"']
    else if c == '\\' then ['\\', '\\']
    else if c == '\U{8}' then ['\\', 'b']
    else if c == '\t' then ['\\', 't']
    else if c == '\n' then ['\\', 'n']
    else if c == '\U{C}' then ['\\', 'f']
    else if c == '\r' then ['\\', 'r']
    else if c as int < 0x20 then ['\\', 'u'] + Hex4(c as int)
    else [c]
  }

  function EscapeBody(s: string): string {
    if s == "" then "" else EscapeChar(s[0]) + EscapeBody(s[1..])
  }

  /** A double-quoted, escaped string literal. */
  function Quote(s: string): string { ['"'] + EscapeBody(s) + ['"'] }

  /** The UTF-16 code units of a character. */
  function Utf16Char(c: char): (units: seq<nat>)
    ensures forall u | u in units :: u <= 0xFFFF
  {
    var u := c as int;
    if u < 0x10000 then [u]
    else [0xD800 + (u - 0x10000) / 0x400, 0xDC00 + (u - 0x10000) % 0x400]
  }

  function Utf16(s: string): seq<nat> {
    if s == "" then [] else Utf16Char(s[0]) + Utf16(s[1..])
  }

  /** Every unit written as a `\uxxxx` escape. */
  function UnicodeEscapes(c: char): string {
    var units := Utf16Char(c);
    if |units| == 1 then ['\\', 'u'] + Hex4(units[0])
    else ['\\', 'u'] + Hex4(units[0]) + ['\\', 'u'] + Hex4(units[1])
  }
}
