/**
 * What the redaction promises, stated over the field-by-field definition
 * `RedactedPayload` that `DetectAndRedact` is proved to compute.
 */
module RedactionProperties {
  import opened PyText
  import opened Patterns
  import opened Values
  import opened Masking
  import opened Detector

  /** The fields a combinatorial signal may rewrite. */
  predicate IsSignalField(k: string) {
    k == NameKey || k == EmailKey || k == AddressKey || k == DeviceIdKey || k == IpAddressKey
  }

  // ---------------------------------------------------------------------------
  // Shape of the result
  // ---------------------------------------------------------------------------

  /** Redaction never adds or removes a field. */
  lemma RedactionKeepsKeys(p: Payload)
    ensures RedactedPayload(p).Keys == p.Keys
  {
  }

  /** Redaction never adds or removes a field, and a field no rule or signal
      rewrites (`pin_code`, or any key the detector does not know) keeps its value. */
  lemma UnruledFieldsKept(p: Payload, k: string)
    requires k in p && !IsStandaloneField(k) && !IsSignalField(k)
    ensures RedactedPayload(p).Keys == p.Keys
    ensures RedactedPayload(p)[k] == p[k]
  {
    assert !(k == NameKey || k == EmailKey || k == AddressKey || k == DeviceIdKey || k == IpAddressKey);
  }

  /** The postal code is read by the address signal but never rewritten. */
  lemma PinCodeKept(p: Payload)
    requires PinCodeKey in p
    ensures RedactedPayload(p)[PinCodeKey] == p[PinCodeKey]
  {
    SignalFieldsNotStandalone();
    SignalFieldsAreNotPinCode();
    UnruledFieldsKept(p, PinCodeKey);
  }

  lemma SignalFieldsAreNotPinCode()
    ensures !IsSignalField(PinCodeKey)
  {
    assert PinCodeKey != NameKey && PinCodeKey != EmailKey && PinCodeKey != AddressKey;
    assert PinCodeKey != DeviceIdKey && PinCodeKey != IpAddressKey;
  }

  /** Nothing is rewritten unless the flag is raised. */
  lemma UnflaggedPayloadUnchanged(p: Payload)
    requires !PiiDetected(p)
    ensures RedactedPayload(p) == p
  {
    forall k | k in p ensures RedactedPayload(p)[k] == p[k] {
      if IsStandaloneField(k) {
        StandaloneUnmatchedKept(p, k);
      }
    }
  }

  /** A standalone field whose `str()` does not match its pattern is kept. */
  lemma StandaloneUnmatchedKept(p: Payload, k: string)
    requires k in p && IsStandaloneField(k) && !AnyStandaloneFired(p)
    ensures StandaloneValue(p, k) == p[k]
  {
  }

  // ---------------------------------------------------------------------------
  // The standalone rules
  // ---------------------------------------------------------------------------

  /** A phone, Aadhaar or passport field is rewritten exactly when its `str()`
      fully matches its pattern, and it is then replaced by the masked string. */
  lemma StandaloneFieldChangedIffMatched(p: Payload, k: string)
    requires k in p && (k == PhoneKey || k == AadharKey || k == PassportKey)
    ensures var s := ToStr(p[k]);
      var matched := if k == PhoneKey then IsPhoneNumber(s)
                     else if k == AadharKey then IsAadharNumber(s)
                     else IsPassportNumber(s);
      (RedactedPayload(p)[k] != p[k] <==> matched)
      && (matched ==> RedactedPayload(p)[k] == Str(if k == PhoneKey then MaskPhone(s)
                                                  else if k == AadharKey then MaskAadhar(s)
                                                  else MaskPassport(s)))
  {
    StandaloneFieldsDistinct();
    var s := ToStr(p[k]);
    MaskedStandaloneDoesNotRematch(s);
    if k == PhoneKey && IsPhoneNumber(s) {
      assert p[k] != Str(MaskPhone(s)) by { MaskedValueDiffers(p[k], MaskPhone(s), IsPhoneNumber); }
    } else if k == AadharKey && IsAadharNumber(s) {
      assert p[k] != Str(MaskAadhar(s)) by { MaskedValueDiffers(p[k], MaskAadhar(s), IsAadharNumber); }
    } else if k == PassportKey && IsPassportNumber(s) {
      assert p[k] != Str(MaskPassport(s)) by { MaskedValueDiffers(p[k], MaskPassport(s), IsPassportNumber); }
    }
  }

  /** A value whose `str()` matches a pattern differs from a string that does not. */
  lemma MaskedValueDiffers(v: Value, m: string, matches: string -> bool)
    requires matches(ToStr(v)) && !matches(m)
    ensures v != Str(m)
  {
  }

  /** The UPI field changes only when its `str()` is a UPI id, and is then its mask. */
  lemma UpiFieldChangedOnlyIfMatched(p: Payload)
    requires UpiKey in p
    ensures var s := ToStr(p[UpiKey]);
      (RedactedPayload(p)[UpiKey] != p[UpiKey] ==> IsUpiId(s))
      && (IsUpiId(s) ==> RedactedPayload(p)[UpiKey] == Str(MaskUpi(s)))
  {
    StandaloneFieldsDistinct();
  }

  /** The UPI mask can leave a matching id as it is: a handle that is already
      two characters followed by `XXX` masks to itself, so the field is
      "rewritten" to the value it had while the flag is raised. */
  lemma UpiMaskCanBeIdentity(head: string, domain: string)
    requires |head| == 2 && AllHandleChars(head) && domain != [] && AllLetters(domain)
    ensures var s := head + "XXX@" + domain;
      IsUpiId(s) && MaskUpi(s) == s
  {
    var local := MaskedHandle(head);
    assert Prefix(head, 2) == head;
    var s := head + "XXX@" + domain;
    assert s == local + "@" + domain;
    UpiIdOfParts(local, domain);
    HandleHasNoAt(local);
    HandleHasNoAt(domain);
    MaskHandleSingleAt(local, domain);
    assert Prefix(local, 2) == head;
  }

  /** An integer phone field is masked exactly when it has ten decimal digits. */
  lemma IntegerPhone(p: Payload, i: int)
    requires PhoneKey in p && p[PhoneKey] == Int(i)
    ensures 1_000_000_000 <= i < 10_000_000_000 ==> AnyStandaloneFired(p)
    ensures RedactedPayload(p)[PhoneKey] != p[PhoneKey] <==> 1_000_000_000 <= i < 10_000_000_000
  {
    IntIsPhoneNumber(i);
    StandaloneFieldChangedIffMatched(p, PhoneKey);
  }

  /** After redaction a phone, Aadhaar or passport field that was masked no longer
      matches its pattern, so running the detector on its own output leaves these
      fields alone. */
  lemma SecondPassStandalone(p: Payload, k: string)
    requires k in p && (k == PhoneKey || k == AadharKey || k == PassportKey)
    ensures var s := ToStr(p[k]);
      var r := ToStr(RedactedPayload(p)[k]);
      (k == PhoneKey && IsPhoneNumber(s) ==> !IsPhoneNumber(r))
      && (k == AadharKey && IsAadharNumber(s) ==> !IsAadharNumber(r))
      && (k == PassportKey && IsPassportNumber(s) ==> !IsPassportNumber(r))
  {
    StandaloneFieldChangedIffMatched(p, k);
    MaskedStandaloneDoesNotRematch(ToStr(p[k]));
  }

  /** A masked UPI id still matches the UPI pattern, so running the detector on its
      own output flags the record again. */
  lemma SecondPassUpi(p: Payload)
    requires UpiKey in p && IsUpiId(ToStr(p[UpiKey]))
    ensures IsUpiId(ToStr(RedactedPayload(p)[UpiKey]))
  {
    UpiFieldChangedOnlyIfMatched(p);
    MaskedUpiStillMatches(ToStr(p[UpiKey]));
  }

  // ---------------------------------------------------------------------------
  // The combinatorial signals
  // ---------------------------------------------------------------------------

  /** With fewer than two signals, every field other than the four standalone ones
      keeps its value, and the flag is raised only by a standalone rule. */
  lemma BelowThreshold(p: Payload, k: string)
    requires SignalCount(p) < 2 && k in p && !IsStandaloneField(k)
    ensures RedactedPayload(p)[k] == p[k]
    ensures PiiDetected(p) == AnyStandaloneFired(p)
  {
  }

  /** From two signals on, the flag is raised and every signalled field is
      rewritten: the name and the e-mail address masked, the address and any
      device id or IP address replaced by their placeholders. */
  lemma AboveThreshold(p: Payload)
    requires SignalCount(p) >= 2
    ensures PiiDetected(p)
    ensures Signalled(NameSignal, p) ==>
      Words(ToStr(p[NameKey])) != [] && RedactedPayload(p)[NameKey] == Str(MaskName(ToStr(p[NameKey])))
    ensures Signalled(EmailSignal, p) ==>
      '@' in ToStr(p[EmailKey]) && RedactedPayload(p)[EmailKey] == Str(MaskEmail(ToStr(p[EmailKey])))
    ensures Signalled(AddressSignal, p) ==> RedactedPayload(p)[AddressKey] == Str(RedactedAddress)
    ensures DeviceIdKey in p ==> RedactedPayload(p)[DeviceIdKey] == Str(RedactedDevice)
    ensures IpAddressKey in p ==> RedactedPayload(p)[IpAddressKey] == Str(RedactedIp)
  {
    SignalFieldsDistinct();
    SignalFieldsNotStandalone();
    if Signalled(NameSignal, p) {
      WordsEmptyIffBlank(ToStr(p[NameKey]));
    }
  }

  /** The name signal fires on any non-blank `str()`, so a JSON null name (whose
      `str()` is `None`) counts. */
  lemma NullNameSignals(p: Payload)
    requires NameKey in p && p[NameKey] == Null
    ensures Signalled(NameSignal, p)
  {
    assert ToStr(Null) == "None";
    assert !IsSpace('N');
    assert Strip("None") != [] by {
      StripShape("None");
    }
  }

  /** A device id or an IP address alone is one signal: nothing is rewritten and
      the flag stays down. */
  lemma DeviceIdOnly(v: Value)
    ensures var p := map[DeviceIdKey := v];
      SignalCount(p) == 1 && RedactedPayload(p) == p && !PiiDetected(p)
  {
    var p := map[DeviceIdKey := v];
    SignalFieldsNotStandalone();
    SignalFieldsDistinct();
    SignalFieldsAreNotPinCode();
    assert !Signalled(NameSignal, p) && !Signalled(EmailSignal, p) && !Signalled(AddressSignal, p);
    assert !AnyStandaloneFired(p);
    UnflaggedPayloadUnchanged(p);
  }

  /** A device id together with a non-blank name is two signals: the device id is
      replaced, the name masked and the flag raised. */
  lemma DeviceIdAndName(v: Value, name: string)
    requires Words(name) != []
    ensures var p := map[DeviceIdKey := v, NameKey := Str(name)];
      PiiDetected(p)
      && RedactedPayload(p)[DeviceIdKey] == Str(RedactedDevice)
      && RedactedPayload(p)[NameKey] == Str(MaskName(name))
  {
    var p := map[DeviceIdKey := v, NameKey := Str(name)];
    SignalFieldsDistinct();
    WordsEmptyIffBlank(name);
    assert Signalled(NameSignal, p) && Signalled(DeviceIpSignal, p);
    AboveThreshold(p);
  }

  // ---------------------------------------------------------------------------
  // The Aadhaar rule on near misses
  // ---------------------------------------------------------------------------

  /** An Aadhaar field that is not exactly twelve digits is left as it is and does
      not by itself raise the flag. */
  lemma AadharNearMissKept(p: Payload)
    requires AadharKey in p && !IsAadharNumber(ToStr(p[AadharKey]))
    ensures RedactedPayload(p)[AadharKey] == p[AadharKey]
    ensures p.Keys == {AadharKey} ==> !PiiDetected(p)
  {
    StandaloneFieldsDistinct();
    if p.Keys == {AadharKey} {
      SignalFieldsNotStandalone();
      assert !AnyStandaloneFired(p);
      assert SignalCount(p) == 0 by {
        assert NameKey !in p && EmailKey !in p && AddressKey !in p;
        assert DeviceIdKey !in p && IpAddressKey !in p;
      }
    }
  }

  /** Fourteen digits are not an Aadhaar number: the match is on the whole value. */
  lemma FourteenDigitsNotAadhar()
    ensures !IsAadharNumber("12345678901299")
  {
  }

  // ---------------------------------------------------------------------------
  // Worked examples
  // ---------------------------------------------------------------------------

  /** A phone number next to a name: the phone is masked, the name alone is one
      signal and stays. */
  lemma PhoneAndNameExample()
    ensures var p := map[PhoneKey := Str("9876543210"), NameKey := Str("Jane Doe")];
      RedactedPayload(p) == map[PhoneKey := Str("98XXXXXX10"), NameKey := Str("Jane Doe")]
      && PiiDetected(p)
  {
    var p := map[PhoneKey := Str("9876543210"), NameKey := Str("Jane Doe")];
    SignalFieldsNotStandalone();
    SignalFieldsDistinct();
    StandaloneFieldsDistinct();
    assert IsPhoneNumber("9876543210");
    assert MaskPhone("9876543210") == "98XXXXXX10";
    assert !Signalled(EmailSignal, p) && !Signalled(AddressSignal, p) && !Signalled(DeviceIpSignal, p);
    assert !Combined(p);
    assert RedactedPayload(p)[PhoneKey] == Str("98XXXXXX10");
    assert RedactedPayload(p)[NameKey] == Str("Jane Doe");
  }

  /** A two-token name next to a well-formed e-mail address gives two signals:
      the name keeps its two initials, the address two characters of its local
      part and its whole domain, and the flag is raised. */
  lemma NameAndEmail(first: string, last: string, local: string, host: string, tld: string)
    requires IsWord(first) && IsWord(last)
    requires local != [] && host != [] && |tld| >= 2
    requires AllHandleChars(local) && AllLetters(host) && AllLower(tld)
    ensures var p := map[NameKey := Str(first + " " + last), EmailKey := Str(local + "@" + host + "." + tld)];
      PiiDetected(p)
      && RedactedPayload(p) == map[NameKey := Str([first[0]] + "XXX " + [last[0]] + "XXXX"),
                                   EmailKey := Str(Prefix(local, 2) + "XXX@" + host + "." + tld)]
  {
    var name, email := first + " " + last, local + "@" + host + "." + tld;
    TwoTokenName(first, last);
    WellFormedEmail(local, host, tld);
    NameAndEmailMasked(name, email);
  }

  /** A payload holding just a name and an e-mail address that both signal has
      both masked. */
  lemma NameAndEmailMasked(name: string, email: string)
    requires Strip(name) != [] && IsEmailAddress(email)
    ensures Words(name) != [] && '@' in email
    ensures var p := map[NameKey := Str(name), EmailKey := Str(email)];
      PiiDetected(p) && RedactedPayload(p) == map[NameKey := Str(MaskName(name)), EmailKey := Str(MaskEmail(email))]
  {
    var p := map[NameKey := Str(name), EmailKey := Str(email)];
    SignalFieldsDistinct();
    assert Signalled(NameSignal, p) && Signalled(EmailSignal, p);
    AboveThreshold(p);
    var r := RedactedPayload(p);
    var masked := map[NameKey := Str(MaskName(name)), EmailKey := Str(MaskEmail(email))];
    assert r.Keys == masked.Keys;
    assert r[NameKey] == masked[NameKey] && r[EmailKey] == masked[EmailKey];
  }

  /** Two tokens joined by a space: a non-blank name masked to its two initials. */
  lemma TwoTokenName(first: string, last: string)
    requires IsWord(first) && IsWord(last)
    ensures Strip(first + " " + last) != [] && Words(first + " " + last) != []
    ensures MaskName(first + " " + last) == [first[0]] + "XXX " + [last[0]] + "XXXX"
  {
    var ws := [first, last];
    assert JoinWords(ws) == first + " " + last by { assert JoinWords(ws[1..]) == last; }
    MaskNameOfWords(ws);
    WordsEmptyIffBlank(first + " " + last);
  }

  /** An address built from its parts matches the e-mail pattern and keeps its
      domain through the mask. */
  lemma WellFormedEmail(local: string, host: string, tld: string)
    requires local != [] && host != [] && |tld| >= 2
    requires AllHandleChars(local) && AllLetters(host) && AllLower(tld)
    ensures IsEmailAddress(local + "@" + host + "." + tld)
    ensures MaskEmail(local + "@" + host + "." + tld) == Prefix(local, 2) + "XXX@" + host + "." + tld
  {
    EmailAddressOfParts(local, host, tld);
    var email, domain := local + "@" + host + "." + tld, host + "." + tld;
    assert email == local + "@" + domain;
    HandleHasNoAt(local);
    assert '@' !in domain by {
      HandleHasNoAt(host);
      HandleHasNoAt(tld);
    }
    MaskHandleSingleAt(local, domain);
    var kept := Prefix(local, 2) + "XXX@";
    assert MaskEmail(email) == kept + domain;
    ConcatAssoc(kept, host, ".", tld);
  }

  lemma ConcatAssoc(a: string, b: string, c: string, d: string)
    ensures a + (b + c + d) == a + b + c + d
  {
  }

  /** An address with its postal code is a single signal: nothing changes and the
      flag stays down. */
  lemma AddressAndPinCodeExample()
    ensures var p := map[AddressKey := Str("221B Baker St"), PinCodeKey := Str("560001")];
      RedactedPayload(p) == p && !PiiDetected(p)
  {
    var p := map[AddressKey := Str("221B Baker St"), PinCodeKey := Str("560001")];
    SignalFieldsNotStandalone();
    SignalFieldsDistinct();
    SignalFieldsAreNotPinCode();
    assert NameKey !in p && EmailKey !in p && DeviceIdKey !in p && IpAddressKey !in p;
    assert !AnyStandaloneFired(p);
    assert SignalCount(p) <= 1;
    UnflaggedPayloadUnchanged(p);
  }

  /** A record that is a lone double quote is preprocessed to the empty string. */
  lemma LoneQuotePreprocessed()
    ensures Preprocess("\"") == ""
  {
    StripOfNonBlankEnds("\"");
  }
}
