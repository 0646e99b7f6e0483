/** The behaviour of the SQLite engine that the store relies on: the two kinds of
    error it raises and the `LIKE` operator used by the resolver. */
module Sqlite {
  import opened Text

  /** `sqlite.OperationalError` (here: the statement names a table that does not
      exist) and `sqlite.IntegrityError` (an insert violates a UNIQUE column). */
  datatype DbError = OperationalError | IntegrityError

  /** `text LIKE pattern` with no ESCAPE clause and the default settings: `%`
      matches any run of characters, `_` matches exactly one, and every other
      pattern character matches a text character equal to it up to ASCII case.
      Without `%` a match pairs pattern and text characters one to one. */
  predicate Like(pattern: string, text: string)
    ensures Like(pattern, text) && '%' !in pattern ==> |text| == |pattern|
    decreases |pattern| + |text|
  {
    if pattern == [] then text == []
    else if pattern[0] == '%' then
      Like(pattern[1..], text) || (text != [] && Like(pattern, text[1..]))
    else if pattern[0] == '_' then
      text != [] && Like(pattern[1..], text[1..])
    else
      text != [] && LowerAscii(pattern[0]) == LowerAscii(text[0]) && Like(pattern[1..], text[1..])
  }

  predicate NoWildcards(pattern: string) {
    '%' !in pattern && '_' !in pattern
  }

  /** A pattern without `%` and `_` matches exactly the texts equal to it up to
      ASCII case. */
  lemma {:induction false} LikeLiteral(pattern: string, text: string)
    requires NoWildcards(pattern)
    ensures Like(pattern, text) <==> EqualIgnoringAsciiCase(pattern, text)
    decreases |pattern|
  {
    if pattern != [] && text != [] {
      LikeLiteral(pattern[1..], text[1..]);
      if LowerAscii(pattern[0]) == LowerAscii(text[0]) && EqualIgnoringAsciiCase(pattern[1..], text[1..]) {
        forall k | 0 <= k < |pattern|
          ensures LowerAscii(pattern[k]) == LowerAscii(text[k])
        {
          if k > 0 { assert pattern[1..][k - 1] == pattern[k] && text[1..][k - 1] == text[k]; }
        }
      }
      if EqualIgnoringAsciiCase(pattern, text) {
        forall k | 0 <= k < |pattern| - 1
          ensures LowerAscii(pattern[1..][k]) == LowerAscii(text[1..][k])
        {
          assert pattern[1..][k] == pattern[k + 1] && text[1..][k] == text[k + 1];
        }
      }
    }
  }
}
