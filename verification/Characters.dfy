/** Character classes that several modules share. */
module Characters {
  predicate IsDigit(c: char) { '0' <= c <= '9' }
}
