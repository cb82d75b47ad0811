/** Character classes used by the message-styling parser. */
module Chars {

  /** The Unicode `White_Space` property, which `char::is_whitespace` tests. */
  predicate IsWhitespace(c: char) {
    var n := c as int;
    || 0x09 <= n <= 0x0D || n == 0x20 || n == 0x85 || n == 0xA0 || n == 0x1680
    || 0x2000 <= n <= 0x200A || n == 0x2028 || n == 0x2029 || n == 0x202F || n == 0x205F || n == 0x3000
  }

  /** The four printable ASCII ranges outside letters, digits and space. */
  predicate IsAsciiPunctuation(c: char) {
    '!' <= c <= '/' || ':' <= c <= '@' || '[' <= c <= '`' || '{' <= c <= '~'
  }

  /** The 25 characters with that property, one by one. */
  lemma WhitespaceIs(c: char)
    ensures IsWhitespace(c) <==> c as int in {
              9, 10, 11, 12, 13, 32, 133, 160, 5760, 8192, 8193, 8194, 8195, 8196, 8197, 8198, 8199, 8200, 8201, 8202,
              8232, 8233, 8239, 8287, 12288 }
  {}
}
