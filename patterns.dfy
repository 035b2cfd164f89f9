/**
 * The five regular expressions of the detector, written as predicates over
 * characters. Every one of them is applied with `fullmatch`, so a predicate
 * describes the whole string; the `\b` anchors at both ends of the phone, Aadhaar
 * and passport patterns and at the end of the UPI pattern are always satisfied by
 * a full match (the characters next to them are word characters) and are not
 * modelled.
 * Character classes are ASCII; `\d` is taken to mean `[0-9]`.
 */
module Patterns {
  import opened PyText

  predicate IsDigit(c: char) { '0' <= c <= '9' }
  predicate IsUpper(c: char) { 'A' <= c <= 'Z' }
  predicate IsLower(c: char) { 'a' <= c <= 'z' }
  predicate IsLetter(c: char) { IsUpper(c) || IsLower(c) }

  /** `[a-zA-Z0-9._]`: the characters of the part before the `@`. */
  predicate IsHandleChar(c: char) { IsLetter(c) || IsDigit(c) || c == '.' || c == '_' }

  predicate AllDigits(s: string) { forall i :: 0 <= i < |s| ==> IsDigit(s[i]) }
  predicate AllLetters(s: string) { forall i :: 0 <= i < |s| ==> IsLetter(s[i]) }
  predicate AllLower(s: string) { forall i :: 0 <= i < |s| ==> IsLower(s[i]) }
  predicate AllHandleChars(s: string) { forall i :: 0 <= i < |s| ==> IsHandleChar(s[i]) }

  /** `\b\d{10}\b`: exactly ten digits. */
  predicate IsPhoneNumber(s: string) { |s| == 10 && AllDigits(s) }

  /** `\b\d{12}\b`: exactly twelve digits. */
  predicate IsAadharNumber(s: string) { |s| == 12 && AllDigits(s) }

  /** `\b[A-Z]\d{7}\b`: one upper-case letter, then seven digits. */
  predicate IsPassportNumber(s: string) { |s| == 8 && IsUpper(s[0]) && AllDigits(s[1..]) }

  /** `[a-zA-Z0-9._]+@[a-zA-Z]+` read at the `@` at index `i`: a non-empty handle
      before it and a non-empty run of letters after it. */
  predicate UpiIdAt(s: string, i: int) {
    0 < i < |s| - 1 && s[i] == '@' && AllHandleChars(s[..i]) && AllLetters(s[i + 1..])
  }

  /** `[a-zA-Z0-9._]+@[a-zA-Z]+\b` as a full match. Neither side can hold an
      `@`, so the only place the pattern can split the string is its first `@`. */
  predicate IsUpiId(s: string) {
    '@' in s && UpiIdAt(s, FirstIndex(s, '@'))
  }

  /** `[a-zA-Z0-9._]+@[a-zA-Z]+\.[a-z]{2,}` read with the `@` at index `i` and the
      dot at index `j`. */
  predicate EmailAddressAt(s: string, i: int, j: int) {
    0 < i && i + 1 < j && j + 2 < |s| && s[i] == '@' && s[j] == '.'
    && AllHandleChars(s[..i]) && AllLetters(s[i + 1..j]) && AllLower(s[j + 1..])
  }

  /** `[a-zA-Z0-9._]+@[a-zA-Z]+\.[a-z]{2,}` as a full match. The pattern can only
      split the string at its first `@` and at the first dot after it. */
  predicate IsEmailAddress(s: string) {
    '@' in s &&
    var i := FirstIndex(s, '@');
    '.' in s[i + 1..] && EmailAddressAt(s, i, i + 1 + FirstIndex(s[i + 1..], '.'))
  }

  lemma HandleHasNoAt(t: string)
    requires AllHandleChars(t) || AllLetters(t) || AllLower(t)
    ensures '@' !in t
  {
  }

  /** Any reading of the UPI pattern splits at the first `@`, so the pattern
      matches exactly when some split point fits it. */
  lemma UpiIdAnySplit(s: string, i: int)
    requires UpiIdAt(s, i)
    ensures '@' in s && FirstIndex(s, '@') == i && IsUpiId(s)
  {
    HandleHasNoAt(s[..i]);
    FirstIndexAfterPrefix(s, i, '@');
  }

  /** Any reading of the e-mail pattern splits at the first `@` and the first dot
      after it, so the pattern matches exactly when some pair of split points fits it. */
  lemma EmailAddressAnySplit(s: string, i: int, j: int)
    requires EmailAddressAt(s, i, j)
    ensures IsEmailAddress(s)
  {
    HandleHasNoAt(s[..i]);
    FirstIndexAfterPrefix(s, i, '@');
    var rest := s[i + 1..];
    assert rest[..j - i - 1] == s[i + 1..j];
    var host := s[i + 1..j];
    assert '.' !in host by {
      forall k | 0 <= k < |host| ensures host[k] != '.' { assert IsLetter(host[k]); }
    }
    FirstIndexAfterPrefix(rest, j - i - 1, '.');
  }

  /** A non-empty handle, `@`, a non-empty run of letters, a dot and two or more
      lower-case letters form an e-mail address. */
  lemma EmailAddressOfParts(local: string, host: string, tld: string)
    requires local != [] && host != [] && |tld| >= 2
    requires AllHandleChars(local) && AllLetters(host) && AllLower(tld)
    ensures IsEmailAddress(local + "@" + host + "." + tld)
  {
    var s := local + "@" + host + "." + tld;
    var i, j := |local|, |local| + 1 + |host|;
    assert s[i] == '@' && s[j] == '.';
    assert s[..i] == local && s[i + 1..j] == host && s[j + 1..] == tld;
    EmailAddressAnySplit(s, i, j);
  }

  /** A UPI id has exactly one `@`, with a non-empty part on each side. */
  lemma UpiIdParts(s: string) returns (local: string, domain: string)
    requires IsUpiId(s)
    ensures s == local + "@" + domain
    ensures local != [] && domain != [] && '@' !in local && '@' !in domain
    ensures AllHandleChars(local) && AllLetters(domain)
  {
    var i := FirstIndex(s, '@');
    local, domain := s[..i], s[i + 1..];
    assert s == local + "@" + domain;
    HandleHasNoAt(local);
    HandleHasNoAt(domain);
  }

  /** An e-mail address has exactly one `@`; what follows it is a run of letters,
      one dot and a lower-case top-level domain of two or more letters. */
  lemma EmailAddressParts(s: string) returns (local: string, host: string, tld: string)
    requires IsEmailAddress(s)
    ensures s == local + "@" + host + "." + tld
    ensures local != [] && host != [] && |tld| >= 2 && '@' !in local && '@' !in host + "." + tld
    ensures AllHandleChars(local) && AllLetters(host) && AllLower(tld)
  {
    var i := FirstIndex(s, '@');
    var j := i + 1 + FirstIndex(s[i + 1..], '.');
    local, host, tld := s[..i], s[i + 1..j], s[j + 1..];
    assert s == local + "@" + host + "." + tld;
    HandleHasNoAt(local);
    HandleHasNoAt(host);
    HandleHasNoAt(tld);
    assert '@' !in host + "." + tld;
  }
}
