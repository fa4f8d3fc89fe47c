/**
  Character classes used by the two address patterns, and the optional
  value that every matcher returns (a match end, or no match).
  The source works on `std::string`, whose characters are bytes; here a
  line is a `string`, and the classes below are the ASCII ranges written
  in the patterns' bracket expressions.
 */
module Text {

  datatype Option<T> = None | Some(value: T)

  /** `[0-9]` */
  predicate IsDigit(c: char) {
    '0' <= c <= '9'
  }

  /** `[0-9a-fA-F]` */
  predicate IsHexDigit(c: char) {
    '0' <= c <= '9' || 'a' <= c <= 'f' || 'A' <= c <= 'F'
  }

  /** `[0-9a-zA-Z]` */
  predicate IsAlnum(c: char) {
    '0' <= c <= '9' || 'a' <= c <= 'z' || 'A' <= c <= 'Z'
  }

  predicate AllDigits(t: string) {
    forall k :: 0 <= k < |t| ==> IsDigit(t[k])
  }

  /** Every character of `s` from `a` up to `b` is a hex digit. */
  predicate AllHexIn(s: string, a: nat, b: nat) {
    b <= |s| && forall k :: a <= k < b ==> IsHexDigit(s[k])
  }

  predicate AllAlnumIn(s: string, a: nat, b: nat) {
    b <= |s| && forall k :: a <= k < b ==> IsAlnum(s[k])
  }

  predicate AllZerosIn(s: string, a: nat, b: nat) {
    b <= |s| && forall k :: a <= k < b ==> s[k] == '0'
  }
}
