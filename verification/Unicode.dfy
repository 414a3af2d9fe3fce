/** What Python looks up in the Unicode database. Nothing is said of these tables, so that every result holds
    whatever a version of the database puts into them; the ASCII part of each class is written out where it is used. */
module Unicode {

  /** The non-ASCII characters of the class `\w`. */
  const WORD_CHARS: set<char>

  /** The non-ASCII characters for which `str.isdigit` is true, superscripts among them. */
  const DIGIT_CHARS: set<char>

  /** The non-ASCII characters of the class `\d`, with the values that `int` gives them. */
  const DECIMAL_CHARS: map<char, nat>
}
