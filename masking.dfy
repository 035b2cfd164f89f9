/**
 * The six masking helpers. Each keeps a few leading (and for phone numbers
 * trailing) characters of the value and replaces the rest by a fixed run of `X`.
 * They are total on the inputs the detector gives them; where Python would raise
 * (an empty passport string, a handle without `@`, a name without a token) the
 * requires clause says so.
 */
module Masking {
  import opened PyText
  import opened Patterns

  /** `mask_phone`: `s[:2] + "XXXXXX" + s[-2:]`. */
  function MaskPhone(s: string): string {
    Prefix(s, 2) + "XXXXXX" + Suffix(s, 2)
  }

  /** The phone mask keeps the first two and the last two characters around six
      `X`; on a ten-digit number it hides exactly positions 2 to 7 and keeps the
      length. A string shorter than two characters is kept whole on both sides. */
  lemma MaskPhoneShape(s: string)
    ensures var r := MaskPhone(s);
      |s| >= 2 ==> |r| == 10 && forall i :: 0 <= i < 10 ==>
        r[i] == if i < 2 then s[i] else if i < 8 then 'X' else s[|s| - 10 + i]
    ensures |s| < 2 ==> MaskPhone(s) == s + "XXXXXX" + s
    ensures var r := MaskPhone(s);
      IsPhoneNumber(s) ==> |r| == |s| && forall i :: 0 <= i < |s| ==>
        r[i] == if 2 <= i < 8 then 'X' else s[i]
  {
  }

  /** `mask_aadhar`: `s[:4] + "XXXXXXXX"`. */
  function MaskAadhar(s: string): string {
    Prefix(s, 4) + "XXXXXXXX"
  }

  /** The Aadhaar mask keeps the first four characters and appends eight `X`; on a
      twelve-digit number the length is kept. */
  lemma MaskAadharShape(s: string)
    ensures var r := MaskAadhar(s);
      |s| >= 4 ==> |r| == 12 && forall i :: 0 <= i < 12 ==> r[i] == if i < 4 then s[i] else 'X'
    ensures |s| < 4 ==> MaskAadhar(s) == s + "XXXXXXXX"
    ensures IsAadharNumber(s) ==> |MaskAadhar(s)| == |s|
  {
  }

  /** `mask_passport`: `s[0] + "XXXXXXX"`. Python raises on an empty string. */
  function MaskPassport(s: string): string
    requires |s| >= 1
  {
    [s[0]] + "XXXXXXX"
  }

  /** The passport mask keeps the first character and appends seven `X`; on a
      passport number the length is kept. */
  lemma MaskPassportShape(s: string)
    requires |s| >= 1
    ensures var r := MaskPassport(s);
      |r| == 8 && forall i :: 0 <= i < 8 ==> r[i] == if i == 0 then s[0] else 'X'
    ensures IsPassportNumber(s) ==> |MaskPassport(s)| == |s|
  {
  }

  /** `parts = s.split("@"); parts[0][:2] + "XXX@" + parts[1]`, the body shared by
      `mask_upi` and `mask_email`: at most two characters before the first `@`,
      `XXX@`, and the text between the first `@` and the next one (or the end).
      Python raises when there is no `@` at all. */
  function MaskHandle(s: string): string
    requires '@' in s
  {
    var parts := SplitOn(s, '@');
    Prefix(parts[0], 2) + "XXX@" + parts[1]
  }

  /** The handle mask, by position: at most two characters before the first `@`,
      `XXX@`, then the text after the first `@` up to the next `@` or the end. */
  lemma MaskHandleShape(s: string)
    requires '@' in s
    ensures var k := FirstIndex(s, '@'); var after := s[k + 1..];
      MaskHandle(s) == Prefix(s[..k], 2) + "XXX@" + (if '@' in after then after[..FirstIndex(after, '@')] else after)
  {
    SplitOnFirst(s, '@');
    SplitOnHead(s[FirstIndex(s, '@') + 1..], '@');
  }

  /** `mask_upi`. */
  function MaskUpi(s: string): string
    requires '@' in s
  {
    MaskHandle(s)
  }

  /** `mask_email`: the same transform as `mask_upi`. */
  function MaskEmail(s: string): string
    requires '@' in s
  {
    MaskHandle(s)
  }

  /** With a single `@`, the mask keeps two characters of the local part and the
      whole domain. */
  lemma MaskHandleSingleAt(local: string, domain: string)
    requires '@' !in local && '@' !in domain
    ensures '@' in local + "@" + domain
    ensures MaskHandle(local + "@" + domain) == Prefix(local, 2) + "XXX@" + domain
  {
    var s := local + "@" + domain;
    assert s[|local|] == '@';
    MaskHandleShape(s);
    assert s[..|local|] == local && s[|local| + 1..] == domain;
  }

  /** A matching UPI id is masked to two characters of its handle, `XXX@` and its
      bank name. */
  lemma MaskUpiOfMatch(s: string) returns (local: string, domain: string)
    requires IsUpiId(s)
    ensures s == local + "@" + domain && local != [] && domain != []
    ensures AllHandleChars(local) && AllLetters(domain)
    ensures '@' in s && MaskUpi(s) == Prefix(local, 2) + "XXX@" + domain
  {
    local, domain := UpiIdParts(s);
    MaskHandleSingleAt(local, domain);
  }

  /** A matching e-mail address is masked to two characters of its local part,
      `XXX@` and its whole domain, top-level domain included. */
  lemma MaskEmailOfMatch(s: string) returns (local: string, domain: string)
    requires IsEmailAddress(s)
    ensures s == local + "@" + domain && local != [] && '.' in domain
    ensures '@' in s && MaskEmail(s) == Prefix(local, 2) + "XXX@" + domain
  {
    var host, tld;
    local, host, tld := EmailAddressParts(s);
    domain := host + "." + tld;
    assert s == local + "@" + domain;
    assert domain[|host|] == '.';
    MaskHandleSingleAt(local, domain);
  }

  /** `mask_name`: the initial of the first token and `XXX`, then, when there is a
      second token, a space, its initial and `XXXX`. Later tokens are dropped.
      Python raises when the name has no token. */
  function MaskName(s: string): string
    requires Words(s) != []
  {
    var parts := Words(s);
    if |parts| >= 2 then [parts[0][0]] + "XXX " + [parts[1][0]] + "XXXX" else [parts[0][0]] + "XXX"
  }

  /** The name mask shows only the first non-blank character of the name and, when
      there is a second token, that token's initial at position 5; every other
      character is `X` or the separating space. */
  lemma MaskNameShape(s: string)
    requires Words(s) != []
    ensures var r := MaskName(s);
      |r| == (if |Words(s)| >= 2 then 10 else 4)
      && StripLeft(s) != [] && r[0] == StripLeft(s)[0]
      && (|r| == 10 ==> r[5] == Words(s)[1][0])
      && forall i :: 1 <= i < |r| && i != 5 ==> r[i] == 'X' || r[i] == ' '
  {
    FirstWordStartsAtStripLeft(s);
  }

  /** On a name made of tokens joined by single spaces the mask shows the first
      two initials. */
  lemma MaskNameOfWords(ws: seq<string>)
    requires |ws| >= 1 && forall i :: 0 <= i < |ws| ==> IsWord(ws[i])
    ensures Words(JoinWords(ws)) != [] && ws[0] != [] && (|ws| >= 2 ==> ws[1] != [])
    ensures MaskName(JoinWords(ws)) ==
      if |ws| >= 2 then [ws[0][0]] + "XXX " + [ws[1][0]] + "XXXX" else [ws[0][0]] + "XXX"
  {
    WordsOfJoin(ws);
    assert IsWord(ws[0]);
    if |ws| >= 2 { assert IsWord(ws[1]); }
  }

  /** Leading whitespace does not change the mask: `"  Jane Doe"` masks as
      `"Jane Doe"` does. */
  lemma MaskNameIgnoresLeadingSpace(pad: string, s: string)
    requires AllSpace(pad) && Words(s) != []
    ensures Words(pad + s) != [] && MaskName(pad + s) == MaskName(s)
  {
    WordsAfterSpaces(pad, s);
  }

  /** Tokens after the second do not change the mask. */
  lemma MaskNameIgnoresLaterWords(ws: seq<string>)
    requires |ws| >= 2 && forall i :: 0 <= i < |ws| ==> IsWord(ws[i])
    ensures Words(JoinWords(ws)) != [] && Words(JoinWords(ws[..2])) != []
    ensures MaskName(JoinWords(ws)) == MaskName(JoinWords(ws[..2]))
  {
    var first := ws[..2];
    assert first == [ws[0], ws[1]];
    assert IsWord(ws[0]) && IsWord(ws[1]);
    MaskNameOfWords(ws);
    MaskNameOfWords(first);
  }

  /** A masked value no longer matches the pattern that selected it, so a second
      pass leaves a masked phone, Aadhaar or passport field alone. */
  lemma MaskedStandaloneDoesNotRematch(s: string)
    ensures IsPhoneNumber(s) ==> !IsPhoneNumber(MaskPhone(s))
    ensures IsAadharNumber(s) ==> !IsAadharNumber(MaskAadhar(s))
    ensures IsPassportNumber(s) ==> !IsPassportNumber(MaskPassport(s))
  {
    if IsPhoneNumber(s) { assert MaskPhone(s)[2] == 'X'; }
    if IsAadharNumber(s) { assert MaskAadhar(s)[4] == 'X'; }
    if IsPassportNumber(s) { assert MaskPassport(s)[1..][0] == 'X'; }
  }

  /** Unlike the other three, a masked UPI id still matches its pattern (its
      handle becomes the kept characters plus `XXX`), so a second pass over a
      redacted payload flags and masks it again. */
  lemma MaskedUpiStillMatches(s: string)
    requires IsUpiId(s)
    ensures '@' in s && IsUpiId(MaskUpi(s))
  {
    var local, domain := MaskUpiOfMatch(s);
    var head := MaskedHandle(local);
    UpiIdOfParts(head, domain);
  }

  /** The handle part of a masked UPI id is still made of handle characters. */
  lemma MaskedHandle(local: string) returns (head: string)
    requires AllHandleChars(local)
    ensures head == Prefix(local, 2) + "XXX" && head + "@" == Prefix(local, 2) + "XXX@"
    ensures head != [] && AllHandleChars(head)
  {
    var kept := Prefix(local, 2);
    head := kept + "XXX";
    forall i | 0 <= i < |head| ensures IsHandleChar(head[i]) {
      if i < |kept| { assert head[i] == local[i]; } else { assert head[i] == 'X'; }
    }
  }

  /** A non-empty handle, `@` and a non-empty run of letters form a UPI id. */
  lemma UpiIdOfParts(local: string, domain: string)
    requires local != [] && AllHandleChars(local) && domain != [] && AllLetters(domain)
    ensures IsUpiId(local + "@" + domain)
  {
    var s := local + "@" + domain;
    assert s[|local|] == '@' && s[..|local|] == local && s[|local| + 1..] == domain;
    UpiIdAnySplit(s, |local|);
  }
}
