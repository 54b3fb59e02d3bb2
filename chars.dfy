/**
 * Character classes shared by the path normaliser and the legacy tokenizer.
 *
 * The source uses Rust's Unicode `char::is_alphanumeric` and `to_lowercase`;
 * this model restricts both to ASCII (letters and digits, and upper-case
 * letters mapped to lower-case ones), which is all the lemmas need: lowering
 * is idempotent, keeps alphanumerics alphanumeric and fixes every
 * non-letter.
 */
module Chars {

  /** `std::path::MAIN_SEPARATOR` on the Unix targets the program is built for. */
  const Separator: char := '/'

  predicate IsAlphanumeric(c: char) {
    ('a' <= c <= 'z') || ('A' <= c <= 'Z') || ('0' <= c <= '9')
  }

  function ToLower(c: char): char {
    if 'A' <= c <= 'Z' then (c as int + 32) as char else c
  }

  /** `str::to_lowercase` (and `make_ascii_lowercase`), character by character. */
  function Lower(s: string): (r: string)
    ensures |r| == |s|
    ensures forall i :: 0 <= i < |s| ==> r[i] == ToLower(s[i])
  {
    if s == [] then [] else Lower(s[..|s| - 1]) + [ToLower(s[|s| - 1])]
  }

  /** Lowering touches only upper-case letters, so it is idempotent. */
  lemma LowerIdempotent(s: string)
    ensures Lower(Lower(s)) == Lower(s)
  {
  }
}
