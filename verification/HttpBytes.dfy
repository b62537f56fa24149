/** Byte classes of header fields. Every character stands for one byte of the wire form. */
module HttpBytes {

  function Lower(s: string): string {
    seq(|s|, i requires 0 <= i < |s| => if 'A' <= s[i] <= 'Z' then s[i] - 'A' + 'a' else s[i])
  }

  predicate IsForbiddenValueByte(c: char) {
    c as int == 0 || c == '\r' || c == '\n' || (c as int < 0x20 && c != '\t') || c as int == 0x7f
  }

  predicate AnyForbidden(s: string) {
    exists i :: 0 <= i < |s| && IsForbiddenValueByte(s[i])
  }
}
