/**
 * C identifiers in the sense of Unicode Standard Annex #31: one XID_Start char and then
 * XID_Continue chars. Both the decoder (for the name it derives from the width line) and
 * the encoder (for the name it is given) apply this test.
 *
 * The Unicode tables are not modelled: beyond ASCII, the two classes are the opaque
 * predicates below. What the model does rely on is true of the real tables: XID_Start is
 * part of XID_Continue, and no White_Space char is in XID_Continue.
 */
module Ident {
  import opened Text

  /** The Unicode XID_Start and XID_Continue tables, for chars beyond ASCII. */
  const UnicodeXidStart: char -> bool
  const UnicodeXidContinue: char -> bool

  predicate IsAsciiLetter(c: char) {
    'a' <= c <= 'z' || 'A' <= c <= 'Z'
  }

  predicate IsAsciiDigit(c: char) {
    '0' <= c <= '9'
  }

  /** `unicode_ident::is_xid_continue`: in ASCII, letters, digits and `_`. */
  predicate IsXidContinue(c: char) {
    if c < '\U{0080}' then IsAsciiLetter(c) || IsAsciiDigit(c) || c == '_'
    else !IsWhitespace(c) && UnicodeXidContinue(c)
  }

  /** `unicode_ident::is_xid_start`: in ASCII, letters only (so not `_` and not a digit). */
  predicate IsXidStart(c: char) {
    if c < '\U{0080}' then IsAsciiLetter(c)
    else IsXidContinue(c) && UnicodeXidStart(c)
  }

  /** The check both codec halves make: a first char that is XID_Start, all others XID_Continue. */
  predicate IsIdentifier(name: string) {
    && name != []
    && IsXidStart(name[0])
    && forall i :: 1 <= i < |name| ==> IsXidContinue(name[i])
  }

  /** Every char of an identifier is XID_Continue: none is whitespace or ASCII punctuation
      other than `_`, so an identifier survives `split_whitespace` as a single word. */
  lemma IdentifierChars(name: string)
    requires IsIdentifier(name)
    ensures forall i :: 0 <= i < |name| ==> IsXidContinue(name[i])
    ensures NoWhitespace(name)
    ensures '{' !in name && ',' !in name && '\n' !in name && '\r' !in name
  {
    assert IsXidContinue(name[0]);
    forall i | 0 <= i < |name| ensures !IsWhitespace(name[i]) && name[i] !in "{,\n\r" {
      assert IsXidContinue(name[i]);
    }
  }

  /** An identifier followed by a suffix of identifier chars is still an identifier. */
  lemma IdentifierAppend(name: string, suffix: string)
    requires IsIdentifier(name)
    requires forall i :: 0 <= i < |suffix| ==> IsXidContinue(suffix[i])
    ensures IsIdentifier(name + suffix)
  {
    var s := name + suffix;
    forall i | 1 <= i < |s| ensures IsXidContinue(s[i]) {
      if i >= |name| {
        assert s[i] == suffix[i - |name|];
      }
    }
  }

  /** The names derived from `_width`, `__width` and `0_width` are rejected: an empty name,
      one that starts with `_`, and one that starts with a digit. */
  lemma RejectedNames()
    ensures !IsIdentifier("")
    ensures forall rest :: !IsIdentifier("_" + rest)
    ensures forall rest :: !IsIdentifier("0" + rest)
  {
    forall rest ensures !IsIdentifier("_" + rest) && !IsIdentifier("0" + rest) {
      assert ("_" + rest)[0] == '_';
      assert ("0" + rest)[0] == '0';
    }
  }
}
