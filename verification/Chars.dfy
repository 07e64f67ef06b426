/** Tests of characters that several readers share. */
module Chars {
  predicate IsDigit(c: char) { '0' <= c <= '9' }
}
