/**
 * The detection-and-redaction engine: `detect_and_redact` takes one raw payload
 * string, undoes CSV-style outer quoting, parses it as a JSON object, masks the
 * standalone PII fields whose value fully matches its pattern, counts the
 * combinatorial signals and, when two or more fire, masks every signalled field.
 * It returns the redacted payload (or the unparsed text) and the PII flag.
 *
 * `json.loads` is a parameter (`parse`), and `json.dumps` is represented by
 * returning the mapping itself.
 */
module Detector {
  import opened PyText
  import opened Patterns
  import opened Values
  import opened Masking

  /** A parsed JSON object: field name to value. */
  type Payload = map<string, Value>

  /** `data[k] = v` on a key the object already has: the keys stay, `k` now maps to
      `v` and every other field is untouched. */
  function Overwrite(data: Payload, k: string, v: Value): (r: Payload)
    requires k in data
    ensures r.Keys == data.Keys && r[k] == v
    ensures forall j | j in data && j != k :: r[j] == data[j]
  {
    data[k := v]
  }

  datatype Option<T> = None | Some(value: T)

  /** The first half of the result: the preprocessed text when it does not parse,
      otherwise the (re-serialised) redacted object. */
  datatype Outcome = Unparsed(text: string) | Parsed(payload: Payload)

  const PhoneKey := "phone"
  const AadharKey := "aadhar"
  const PassportKey := "passport"
  const UpiKey := "upi_id"
  const NameKey := "name"
  const EmailKey := "email"
  const AddressKey := "address"
  const PinCodeKey := "pin_code"
  const DeviceIdKey := "device_id"
  const IpAddressKey := "ip_address"

  /** The four standalone field names are pairwise distinct. */
  lemma StandaloneFieldsDistinct()
    ensures PhoneKey != AadharKey && PhoneKey != PassportKey && PhoneKey != UpiKey
    ensures AadharKey != PassportKey && AadharKey != UpiKey && PassportKey != UpiKey
  {
  }

  /** The field names the combinatorial signals rewrite are pairwise distinct. */
  lemma SignalFieldsDistinct()
    ensures NameKey != EmailKey && NameKey != AddressKey && NameKey != DeviceIdKey && NameKey != IpAddressKey
    ensures EmailKey != AddressKey && EmailKey != DeviceIdKey && EmailKey != IpAddressKey
    ensures AddressKey != DeviceIdKey && AddressKey != IpAddressKey && DeviceIdKey != IpAddressKey
  {
  }

  /** No field a signal reads is one of the standalone fields. */
  lemma SignalFieldsNotStandalone()
    ensures !IsStandaloneField(NameKey) && !IsStandaloneField(EmailKey)
    ensures !IsStandaloneField(AddressKey) && !IsStandaloneField(PinCodeKey)
    ensures !IsStandaloneField(DeviceIdKey) && !IsStandaloneField(IpAddressKey)
  {
  }

  const RedactedAddress := "[REDACTED_ADDRESS]"
  const RedactedDevice := "[REDACTED_DEVICE]"
  const RedactedIp := "[REDACTED_IP]"

  // ---------------------------------------------------------------------------
  // Preprocessing of the raw text
  // ---------------------------------------------------------------------------

  /** `s.replace('""', '"')`: scanning left to right, each non-overlapping pair of
      double quotes becomes one. */
  function CollapseQuotes(s: string): string {
    if |s| >= 2 && s[0] == '"' && s[1] == '"' then "\"" + CollapseQuotes(s[2..])
    else if s == [] then []
    else [s[0]] + CollapseQuotes(s[1..])
  }

  /** CSV escaping of a field: every double quote is written twice. */
  function DoubleQuotes(s: string): string {
    if s == [] then []
    else (if s[0] == '"' then "\"\"" else [s[0]]) + DoubleQuotes(s[1..])
  }

  /** Collapsing undoes the CSV escaping. */
  lemma {:induction false} CollapseDoubleQuotes(s: string)
    ensures CollapseQuotes(DoubleQuotes(s)) == s
  {
    if s != [] {
      CollapseDoubleQuotes(s[1..]);
      var rest := DoubleQuotes(s[1..]);
      if s[0] == '"' {
        assert ("\"\"" + rest)[2..] == rest;
      } else {
        var d := [s[0]] + rest;
        assert d[1..] == rest;
        assert d[0] != '"';
      }
      assert [s[0]] + s[1..] == s;
    }
  }

  /** `record.startswith('"') and record.endswith('"')`; a lone `"` satisfies both. */
  predicate IsQuoted(t: string) {
    |t| >= 1 && t[0] == '"' && t[|t| - 1] == '"'
  }

  /** `record[1:-1]`, empty for a string of length one. */
  function Unquote(t: string): string {
    if |t| >= 2 then t[1..|t| - 1] else []
  }

  /** The preprocessing of the raw text: strip, then remove an outer pair of quotes and collapse the
      doubled quotes inside. */
  function Preprocess(record: string): string {
    var t := Strip(record);
    if IsQuoted(t) then CollapseQuotes(Unquote(t)) else t
  }

  /** A payload written as a CSV-quoted field comes back unchanged. */
  lemma PreprocessCsvField(s: string)
    ensures Preprocess("\"" + DoubleQuotes(s) + "\"") == s
  {
    var q := "\"" + DoubleQuotes(s) + "\"";
    StripOfNonBlankEnds(q);
    assert Unquote(q) == DoubleQuotes(s);
    CollapseDoubleQuotes(s);
  }

  /** `strip()` leaves a string that neither starts nor ends with whitespace as it is. */
  lemma StripOfNonBlankEnds(q: string)
    requires q != [] && !IsSpace(q[0]) && !IsSpace(q[|q| - 1])
    ensures Strip(q) == q
  {
    assert StripLeft(q) == q;
  }

  // ---------------------------------------------------------------------------
  // Rules and signals, and the redaction they define field by field
  // ---------------------------------------------------------------------------

  /** The combinatorial signals. */
  datatype Signal = NameSignal | EmailSignal | AddressSignal | DeviceIpSignal

  /** Some standalone field's `str()` fully matches its pattern. */
  predicate AnyStandaloneFired(p: Payload) {
    (PhoneKey in p && IsPhoneNumber(ToStr(p[PhoneKey])))
    || (AadharKey in p && IsAadharNumber(ToStr(p[AadharKey])))
    || (PassportKey in p && IsPassportNumber(ToStr(p[PassportKey])))
    || (UpiKey in p && IsUpiId(ToStr(p[UpiKey])))
  }

  /** Whether a combinatorial signal fires on `p`. */
  predicate Signalled(g: Signal, p: Payload) {
    match g
    case NameSignal => NameKey in p && Strip(ToStr(p[NameKey])) != []
    case EmailSignal => EmailKey in p && IsEmailAddress(ToStr(p[EmailKey]))
    case AddressSignal => AddressKey in p && Strip(ToStr(p[AddressKey])) != [] && PinCodeKey in p
    case DeviceIpSignal => DeviceIdKey in p || IpAddressKey in p
  }

  function Count(b: bool): nat { if b then 1 else 0 }

  /** Number of distinct signals that fire. */
  function SignalCount(p: Payload): nat {
    Count(Signalled(NameSignal, p)) + Count(Signalled(EmailSignal, p))
    + Count(Signalled(AddressSignal, p)) + Count(Signalled(DeviceIpSignal, p))
  }

  /** `[g]` when `b` holds, `[]` otherwise. */
  function Listed(b: bool, g: Signal): seq<Signal> {
    if b then [g] else []
  }

  /** The signals among the first `n` of name, email, address and device/IP that
      fire, in that order. */
  function SignalsUpTo(p: Payload, n: nat): seq<Signal>
    requires n <= 4
  {
    var g := [NameSignal, EmailSignal, AddressSignal, DeviceIpSignal];
    if n == 0 then [] else SignalsUpTo(p, n - 1) + Listed(Signalled(g[n - 1], p), g[n - 1])
  }

  /** All four signals checked: each firing signal is listed once, and no other. */
  lemma SignalsUpToAll(p: Payload)
    ensures |SignalsUpTo(p, 4)| == SignalCount(p)
    ensures forall g :: g in SignalsUpTo(p, 4) <==> Signalled(g, p)
  {
    var b1, b2, b3, b4 := Signalled(NameSignal, p), Signalled(EmailSignal, p),
      Signalled(AddressSignal, p), Signalled(DeviceIpSignal, p);
    assert SignalsUpTo(p, 1) == Listed(b1, NameSignal);
    assert SignalsUpTo(p, 2) == SignalsUpTo(p, 1) + Listed(b2, EmailSignal);
    assert SignalsUpTo(p, 3) == SignalsUpTo(p, 2) + Listed(b3, AddressSignal);
    assert SignalsUpTo(p, 4) == SignalsUpTo(p, 3) + Listed(b4, DeviceIpSignal);
    ListedFour(b1, b2, b3, b4);
    forall g ensures Signalled(g, p) == ((g == NameSignal && b1) || (g == EmailSignal && b2)
      || (g == AddressSignal && b3) || (g == DeviceIpSignal && b4)) {
    }
  }

  /** Membership in, and length of, a list of up to four distinct signals. */
  lemma ListedFour(b1: bool, b2: bool, b3: bool, b4: bool)
    ensures var l := Listed(b1, NameSignal) + Listed(b2, EmailSignal)
      + Listed(b3, AddressSignal) + Listed(b4, DeviceIpSignal);
      |l| == Count(b1) + Count(b2) + Count(b3) + Count(b4)
      && forall g :: g in l <==> ((g == NameSignal && b1) || (g == EmailSignal && b2)
        || (g == AddressSignal && b3) || (g == DeviceIpSignal && b4))
  {
  }

  /** Combinatorial masking happens only when at least two signals fire. */
  predicate Combined(p: Payload) {
    SignalCount(p) >= 2
  }

  /** The flag: a standalone rule fired, or two or more signals did. */
  predicate PiiDetected(p: Payload) {
    AnyStandaloneFired(p) || Combined(p)
  }

  /** The fields the four standalone rules look at. */
  predicate IsStandaloneField(k: string) {
    k == PhoneKey || k == AadharKey || k == PassportKey || k == UpiKey
  }

  /** The value of a standalone field after redaction: masked when its `str()`
      fully matches the field's pattern, unchanged otherwise. */
  function StandaloneValue(p: Payload, k: string): Value
    requires k in p
  {
    var s := ToStr(p[k]);
    if k == PhoneKey && IsPhoneNumber(s) then Str(MaskPhone(s))
    else if k == AadharKey && IsAadharNumber(s) then Str(MaskAadhar(s))
    else if k == PassportKey && IsPassportNumber(s) then Str(MaskPassport(s))
    else if k == UpiKey && IsUpiId(s) then Str(MaskUpi(s))
    else p[k]
  }

  /** The value of any other field once two or more signals fire: the field of each
      fired signal is masked or replaced by its sentinel. */
  function CombinedValue(p: Payload, k: string): Value
    requires k in p
  {
    var s := ToStr(p[k]);
    if k == NameKey && Signalled(NameSignal, p) then
      WordsEmptyIffBlank(s); Str(MaskName(s))
    else if k == EmailKey && Signalled(EmailSignal, p) then
      Str(MaskEmail(s))
    else if k == AddressKey && Signalled(AddressSignal, p) then Str(RedactedAddress)
    else if k == DeviceIdKey && Signalled(DeviceIpSignal, p) then Str(RedactedDevice)
    else if k == IpAddressKey && Signalled(DeviceIpSignal, p) then Str(RedactedIp)
    else p[k]
  }

  /** The value a field of `p` holds after redaction. */
  function RedactedValue(p: Payload, k: string): Value
    requires k in p
  {
    if IsStandaloneField(k) then StandaloneValue(p, k)
    else if Combined(p) then CombinedValue(p, k)
    else p[k]
  }

  /** The redacted object: same keys, each value redacted as above. */
  function RedactedPayload(p: Payload): Payload {
    map k | k in p :: RedactedValue(p, k)
  }

  // ---------------------------------------------------------------------------
  // detect_and_redact
  // ---------------------------------------------------------------------------

  /** `detect_and_redact(record)`, with `json.loads` given as `parse`. */
  method DetectAndRedact(record: string, parse: string -> Option<Payload>)
    returns (redacted: Outcome, piiDetected: bool)
    ensures parse(Preprocess(record)).None? ==>
      redacted == Unparsed(Preprocess(record)) && !piiDetected
    ensures parse(Preprocess(record)).Some? ==>
      var p := parse(Preprocess(record)).value;
      redacted == Parsed(RedactedPayload(p)) && piiDetected == PiiDetected(p)
  {
    var text := Strip(record);
    if |text| >= 1 && text[0] == '"' && text[|text| - 1] == '"' {
      text := CollapseQuotes(if |text| >= 2 then text[1..|text| - 1] else []);
    }
    var parsed := parse(text);
    if parsed.None? {
      return Unparsed(text), false;
    }
    ghost var p := parsed.value;
    var data;
    data, piiDetected := RedactStandalone(parsed.value);
    ghost var afterStandalone := data;
    var fields := CollectSignals(data);
    SignalsIgnoreStandalone(p, data);
    if |fields| >= 2 {
      piiDetected := true;
      data := RedactCombined(data, fields);
      CombinedAfterStandalone(p, afterStandalone, data);
    } else {
      StandaloneOnly(p, data);
    }
    redacted := Parsed(data);
  }

  /** The four standalone rules, in order, each masking its field when the field's
      `str()` fully matches its pattern; `fired` tells whether any did. */
  method RedactStandalone(p: Payload) returns (data: Payload, fired: bool)
    ensures data.Keys == p.Keys
    ensures forall k | k in p :: data[k] == StandaloneValue(p, k)
    ensures fired == AnyStandaloneFired(p)
  {
    StandaloneFieldsDistinct();
    data := p;
    fired := false;
    if PhoneKey in data && IsPhoneNumber(ToStr(data[PhoneKey])) {
      data := Overwrite(data, PhoneKey, Str(MaskPhone(ToStr(data[PhoneKey]))));
      fired := true;
    }
    if AadharKey in data && IsAadharNumber(ToStr(data[AadharKey])) {
      data := Overwrite(data, AadharKey, Str(MaskAadhar(ToStr(data[AadharKey]))));
      fired := true;
    }
    if PassportKey in data && IsPassportNumber(ToStr(data[PassportKey])) {
      data := Overwrite(data, PassportKey, Str(MaskPassport(ToStr(data[PassportKey]))));
      fired := true;
    }
    if UpiKey in data && IsUpiId(ToStr(data[UpiKey])) {
      data := Overwrite(data, UpiKey, Str(MaskUpi(ToStr(data[UpiKey]))));
      fired := true;
    }
    forall k | k in p ensures data[k] == StandaloneValue(p, k) {
      if k == PhoneKey {
      } else if k == AadharKey {
      } else if k == PassportKey {
      } else if k == UpiKey {
      }
    }
  }

  /** The list of combinatorial signals that fire, each at most once, in the order
      name, email, address, device/IP. */
  method CollectSignals(data: Payload) returns (fields: seq<Signal>)
    ensures fields == SignalsUpTo(data, 4)
    ensures |fields| == SignalCount(data)
    ensures forall g :: g in fields <==> Signalled(g, data)
  {
    fields := [];
    if NameKey in data && Strip(ToStr(data[NameKey])) != [] {
      fields := fields + [NameSignal];
    }
    assert fields == SignalsUpTo(data, 1);
    if EmailKey in data && IsEmailAddress(ToStr(data[EmailKey])) {
      fields := fields + [EmailSignal];
    }
    assert fields == SignalsUpTo(data, 2);
    if AddressKey in data && Strip(ToStr(if AddressKey in data then data[AddressKey] else Str(""))) != [] && PinCodeKey in data {
      fields := fields + [AddressSignal];
    }
    assert fields == SignalsUpTo(data, 3);
    if DeviceIdKey in data || IpAddressKey in data {
      fields := fields + [DeviceIpSignal];
    }
    assert fields == SignalsUpTo(data, 4);
    SignalsUpToAll(data);
  }

  /** With the signals that fired in `fields`, mask the name and the e-mail address
      and replace the address, device id and IP address by their sentinels. */
  method RedactCombined(p: Payload, fields: seq<Signal>) returns (data: Payload)
    requires forall g :: g in fields <==> Signalled(g, p)
    ensures data.Keys == p.Keys
    ensures forall k | k in p :: data[k] == CombinedValue(p, k)
  {
    SignalFieldsDistinct();
    data := p;
    if NameSignal in fields {
      WordsEmptyIffBlank(ToStr(data[NameKey]));
      data := Overwrite(data, NameKey, Str(MaskName(ToStr(data[NameKey]))));
    }
    if EmailSignal in fields {
      data := Overwrite(data, EmailKey, Str(MaskEmail(ToStr(data[EmailKey]))));
    }
    if AddressSignal in fields {
      data := Overwrite(data, AddressKey, Str(RedactedAddress));
    }
    if DeviceIpSignal in fields {
      if DeviceIdKey in data {
        data := Overwrite(data, DeviceIdKey, Str(RedactedDevice));
      }
      if IpAddressKey in data {
        data := Overwrite(data, IpAddressKey, Str(RedactedIp));
      }
    }
    forall k | k in p ensures data[k] == CombinedValue(p, k) {
      if k == NameKey {
      } else if k == EmailKey {
      } else if k == AddressKey {
      } else if k == DeviceIdKey {
      } else if k == IpAddressKey {
      }
    }
  }

  /** The signals read only fields the standalone rules leave alone. */
  lemma SignalsIgnoreStandalone(p: Payload, q: Payload)
    requires q.Keys == p.Keys && forall k | k in p :: q[k] == StandaloneValue(p, k)
    ensures forall g :: Signalled(g, q) == Signalled(g, p)
    ensures SignalCount(q) == SignalCount(p)
  {
    SignalFieldsNotStandalone();
    assert NameKey in p ==> q[NameKey] == p[NameKey];
    assert EmailKey in p ==> q[EmailKey] == p[EmailKey];
    assert AddressKey in p ==> q[AddressKey] == p[AddressKey];
  }

  /** Below the threshold the standalone rules give the whole redaction. */
  lemma StandaloneOnly(p: Payload, q: Payload)
    requires q.Keys == p.Keys && forall k | k in p :: q[k] == StandaloneValue(p, k)
    requires !Combined(p)
    ensures q == RedactedPayload(p)
  {
  }

  /** From the threshold on, the combinatorial masking applied to the result of the
      standalone rules gives the whole redaction. */
  lemma CombinedAfterStandalone(p: Payload, q: Payload, r: Payload)
    requires q.Keys == p.Keys && forall k | k in p :: q[k] == StandaloneValue(p, k)
    requires r.Keys == q.Keys && forall k | k in q :: r[k] == CombinedValue(q, k)
    requires Combined(q)
    ensures r == RedactedPayload(p)
  {
    SignalsIgnoreStandalone(p, q);
    forall k | k in p ensures r[k] == RedactedValue(p, k) {
      if IsStandaloneField(k) {
        CombinedValueOfStandaloneField(q, k);
      } else {
        CombinedValueAgrees(p, q, k);
      }
    }
  }

  /** The combinatorial masking leaves the standalone fields alone. */
  lemma CombinedValueOfStandaloneField(p: Payload, k: string)
    requires k in p && IsStandaloneField(k)
    ensures CombinedValue(p, k) == p[k]
  {
    SignalFieldsNotStandalone();
  }

  /** The combinatorial value of a field depends only on that field and on which
      signals fire. */
  lemma CombinedValueAgrees(p: Payload, q: Payload, k: string)
    requires k in p && k in q && q[k] == p[k]
    requires forall g :: Signalled(g, q) == Signalled(g, p)
    ensures CombinedValue(q, k) == CombinedValue(p, k)
  {
  }
}
