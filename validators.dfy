/** The input checks of the domain routes: the subdomain label pattern, the
    dotted-quad IPv4 pattern, the hostname pattern and `validateRecordValue`,
    each regular expression written out as a character-level predicate. */
module Validators {
  import opened Text

  // ------------------------------------------------------------ subdomain

  /** `SUBDOMAIN_REGEX` as written: `^[a-z0-9](?:[a-z0-9-]{0,61}[a-z0-9])?$`.
      `isValidSubdomain` is a test of this pattern. */
  predicate IsValidSubdomain(name: string) {
    |name| >= 1 && (IsLower(name[0]) || IsDigit(name[0]))
    && (|name| == 1
        || (|name| - 2 <= 61
            && (forall i :: 1 <= i < |name| - 1 ==> IsLabelChar(name[i]))
            && (IsLower(name[|name| - 1]) || IsDigit(name[|name| - 1]))))
  }

  /** A valid subdomain is a DNS label: 1 to 63 characters of `[a-z0-9-]`
      that neither start nor end with a hyphen, and every such label is valid. */
  lemma SubdomainIsLabel(name: string)
    ensures IsValidSubdomain(name) <==>
      1 <= |name| <= 63
      && (forall i :: 0 <= i < |name| ==> IsLabelChar(name[i]))
      && name[0] != '-' && name[|name| - 1] != '-'
  {
  }

  // ----------------------------------------------------------------- IPv4

  /** One octet group of `IPV4_REGEX`: `25[0-5]|2[0-4]\d|1\d{2}|[1-9]?\d`. */
  predicate MatchesOctetPattern(p: string) {
    (|p| == 3 && p[0] == '2' && p[1] == '5' && '0' <= p[2] <= '5')
    || (|p| == 3 && p[0] == '2' && '0' <= p[1] <= '4' && IsDigit(p[2]))
    || (|p| == 3 && p[0] == '1' && IsDigit(p[1]) && IsDigit(p[2]))
    || (|p| == 2 && '1' <= p[0] <= '9' && IsDigit(p[1]))
    || (|p| == 1 && IsDigit(p[0]))
  }

  /** A decimal numeral of 0..255 written without leading zeros. */
  predicate IsCanonicalOctet(p: string) {
    1 <= |p| <= 3 && AllDigits(p) && (|p| > 1 ==> p[0] != '0') && DecimalValue(p) <= 255
  }

  /** The octet alternation accepts exactly the canonical numerals of 0..255. */
  lemma OctetPatternExact(p: string)
    ensures MatchesOctetPattern(p) <==> IsCanonicalOctet(p)
  {
    if |p| >= 2 && AllDigits(p) {
      var p1, p2 := p[..1], p[..2];
      assert DecimalValue(p1) == DigitValue(p[0]) by { assert p1[..0] == []; }
      assert DecimalValue(p2) == DigitValue(p[0]) * 10 + DigitValue(p[1]) by { assert p2[..1] == p1; }
      if |p| == 3 {
        assert p[..2] == p2;
        assert DecimalValue(p) == DigitValue(p[0]) * 100 + DigitValue(p[1]) * 10 + DigitValue(p[2]);
      } else {
        assert p[..1] == p1;
      }
    } else if |p| == 1 && AllDigits(p) {
      assert DecimalValue(p) == DigitValue(p[0]) by { assert p[..0] == []; }
    }
  }

  /** `IPV4_REGEX`: `^(oct)(\.(oct)){3}$`. No octet contains a dot, so the string
      matches exactly when its dot-separated pieces are four octets. */
  predicate IsIPv4(s: string) {
    var parts := Split(s, '.');
    |parts| == 4 && forall i :: 0 <= i < 4 ==> MatchesOctetPattern(parts[i])
  }

  /** An accepted address is 7 to 15 characters, each a digit or a dot. */
  lemma IPv4Shape(s: string)
    requires IsIPv4(s)
    ensures 7 <= |s| <= 15
    ensures forall i :: 0 <= i < |s| ==> IsDigit(s[i]) || s[i] == '.'
  {
    var ps := Split(s, '.');
    JoinSplit(s, '.');
    assert Join(ps[2..], '.') == ps[2] + ['.'] + ps[3] by {
      assert ps[2..][1..] == [ps[3]];
    }
    assert Join(ps[1..], '.') == ps[1] + ['.'] + Join(ps[2..], '.') by {
      assert ps[1..][1..] == ps[2..];
    }
    assert |s| == |ps[0]| + |ps[1]| + |ps[2]| + |ps[3]| + 3;
    forall p, q | 0 <= p < |ps| && 0 <= q < |ps[p]| ensures IsDigit(ps[p][q]) || ps[p][q] == '.' {
      assert MatchesOctetPattern(ps[p]);
    }
    JoinAllChars(ps, '.', c => IsDigit(c) || c == '.');
  }

  /** The four numbers an address denotes. */
  function IPv4Octets(s: string): (r: seq<nat>)
    requires IsIPv4(s)
    ensures |r| == 4 && forall i :: 0 <= i < 4 ==> r[i] <= 255
  {
    var parts := Split(s, '.');
    OctetPatternExact(parts[0]);
    OctetPatternExact(parts[1]);
    OctetPatternExact(parts[2]);
    OctetPatternExact(parts[3]);
    [DecimalValue(parts[0]), DecimalValue(parts[1]), DecimalValue(parts[2]), DecimalValue(parts[3])]
  }

  /** An address written out: the four numerals joined by dots. */
  function FormatIPv4(a: nat, b: nat, c: nat, d: nat): string {
    Join([DecimalString(a), DecimalString(b), DecimalString(c), DecimalString(d)], '.')
  }

  lemma DecimalHasNoDot(n: nat)
    ensures '.' !in DecimalString(n)
  {
  }

  /** Every quadruple of numbers 0..255 is written as an address the pattern
      accepts, and reading the address back gives the same numbers. */
  lemma FormatIPv4Accepted(a: nat, b: nat, c: nat, d: nat)
    requires a <= 255 && b <= 255 && c <= 255 && d <= 255
    ensures IsIPv4(FormatIPv4(a, b, c, d))
    ensures IPv4Octets(FormatIPv4(a, b, c, d)) == [a, b, c, d]
  {
    var q := [a, b, c, d];
    var ps := [DecimalString(a), DecimalString(b), DecimalString(c), DecimalString(d)];
    forall i | 0 <= i < 4 ensures '.' !in ps[i] && MatchesOctetPattern(ps[i]) && DecimalValue(ps[i]) == q[i] {
      DecimalHasNoDot(q[i]);
      DecimalRoundTrip(q[i]);
      OctetPatternExact(ps[i]);
    }
    SplitJoin(ps, '.');
  }

  /** Conversely every accepted address is the written form of its numbers:
      the pattern admits one spelling per address. */
  lemma IPv4Canonical(s: string)
    requires IsIPv4(s)
    ensures var q := IPv4Octets(s); s == FormatIPv4(q[0], q[1], q[2], q[3])
  {
    var parts := Split(s, '.');
    var q := IPv4Octets(s);
    forall i | 0 <= i < 4 ensures DecimalString(q[i]) == parts[i] {
      OctetPatternExact(parts[i]);
      DecimalCanonical(parts[i]);
    }
    JoinSplit(s, '.');
    assert parts == [DecimalString(q[0]), DecimalString(q[1]), DecimalString(q[2]), DecimalString(q[3])];
  }

  // ------------------------------------------------------------- hostname

  /** `[a-z0-9-]` under the `i` flag. */
  predicate IsHostChar(c: char) { IsLabelChar(LowerChar(c)) }

  /** `.replace(/\.$/, "")`: drops one final dot. */
  function StripTrailingDot(s: string): (r: string)
    ensures r == s || (r + "." == s)
    ensures (|s| > 0 && s[|s| - 1] == '.') <==> r + "." == s
  {
    if |s| > 0 && s[|s| - 1] == '.' then s[..|s| - 1] else s
  }

  /** `HOSTNAME_REGEX`:
      `^(?=.{1,253}$)(?!-)(?:[a-z0-9-]{1,63}\.)+[a-z0-9-]{2,63}\.?$` with the `i` flag.
      Without its optional final dot the name is two or more labels of host
      characters joined by dots, the last one 2..63 long and the others 1..63. */
  predicate IsHostname(s: string) {
    1 <= |s| <= 253 && s[0] != '-'
    && var labels := Split(StripTrailingDot(s), '.');
    |labels| >= 2
    && (forall i :: 0 <= i < |labels| - 1 ==> 1 <= |labels[i]| <= 63)
    && 2 <= |labels[|labels| - 1]| <= 63
    && (forall i, j :: 0 <= i < |labels| && 0 <= j < |labels[i]| ==> IsHostChar(labels[i][j]))
  }

  /** The last piece of a split is a suffix of the string. */
  lemma {:induction false} SplitLastIsSuffix(s: string, sep: char)
    ensures var ps := Split(s, sep); var last := ps[|ps| - 1];
      |last| <= |s| && s[|s| - |last|..] == last
  {
    if |s| > 0 {
      SplitLastIsSuffix(s[1..], sep);
      var rest := Split(s[1..], sep);
      var last := rest[|rest| - 1];
      assert s[1..][|s| - 1 - |last|..] == s[|s| - |last|..];
      if s[0] != sep && |rest| == 1 {
        JoinSplit(s[1..], sep);
        assert Split(s, sep) == [[s[0]] + rest[0]];
        assert [s[0]] + s[1..] == s;
      }
    }
  }

  /** A hostname without its final dot is still a hostname, with the same labels,
      and ends in a host character. */
  lemma HostnameWithoutDot(s: string)
    requires IsHostname(s)
    ensures var w := StripTrailingDot(s);
      IsHostname(w) && |w| >= 2 && IsHostChar(w[|w| - 1]) && StripTrailingDot(w) == w
      && w == s[..|w|]
  {
    var body := StripTrailingDot(s);
    var labels := Split(body, '.');
    SplitLastIsSuffix(body, '.');
    var last := labels[|labels| - 1];
    assert body[|body| - 1] == last[|last| - 1];
    assert IsHostChar(last[|last| - 1]);
  }

  /** An accepted hostname is made of host characters and dots, and has a dot
      besides its optional final one. */
  lemma HostnameShape(s: string)
    requires IsHostname(s)
    ensures forall i :: 0 <= i < |s| ==> s[i] == '.' || IsHostChar(s[i])
    ensures '.' in StripTrailingDot(s)
  {
    var w := StripTrailingDot(s);
    var labels := Split(w, '.');
    JoinSplit(w, '.');
    JoinAllChars(labels, '.', c => c == '.' || IsHostChar(c));
    forall i | 0 <= i < |s| ensures s[i] == '.' || IsHostChar(s[i]) {
      if i < |w| {
        assert s[i] == w[i];
      }
    }
    assert w[|labels[0]|] == '.' by {
      assert w == labels[0] + ['.'] + Join(labels[1..], '.');
    }
  }

  // ---------------------------------------------------- validateRecordValue

  datatype Validation = Valid(value: string) | Invalid(message: string)

  const ValueRequired := "Record value is required."
  const AddressExpected := "Provide a valid IPv4 address (e.g. 203.0.113.10)."
  const HostnameExpected := "Provide a valid hostname (e.g. app.example.com)."
  const SelfReference := "CNAME target cannot point to itself."

  /** `validateRecordValue(recordType, value, { subdomain, domain })`: an `A`
      record needs an IPv4 address; any other type a hostname that is not the
      record's own name. The value is trimmed first; hostnames are lowercased
      and lose one final dot. */
  function ValidateRecordValue(recordType: string, value: string, subdomain: string, domain: string)
    : (r: Validation)
    ensures r.Invalid? ==>
      r.message == ValueRequired || r.message == AddressExpected
      || r.message == HostnameExpected || r.message == SelfReference
  {
    var trimmed := Trim(value);
    if trimmed == [] then Invalid(ValueRequired)
    else if recordType == "A" then
      if !IsIPv4(trimmed) then Invalid(AddressExpected) else Valid(trimmed)
    else
      HostnameValue(trimmed, StripTrailingDot(ToLower(subdomain + "." + domain)))
  }

  /** An accepted value is an address for type `A` and otherwise a
      lowercase hostname without a final dot that is not the record's own name. */
  lemma AcceptedValue(recordType: string, value: string, subdomain: string, domain: string)
    requires ValidateRecordValue(recordType, value, subdomain, domain).Valid?
    ensures var w := ValidateRecordValue(recordType, value, subdomain, domain).value;
      |w| > 0 && Trim(w) == w
      && (recordType == "A" ==> IsIPv4(w))
      && (recordType != "A" ==> AcceptedHostname(w) && w != StripTrailingDot(ToLower(subdomain + "." + domain)))
  {
    if recordType == "A" {
      TrimIdempotent(value);
    }
  }

  /** A hostname in the form the validation hands back: lowercase and
      without a final dot. */
  predicate AcceptedHostname(w: string) {
    IsHostname(w) && IsLowerCase(w) && |w| > 0 && w[|w| - 1] != '.'
    && ToLower(w) == w && StripTrailingDot(w) == w
  }

  /** The hostname branch of `validateRecordValue`, on the trimmed value and
      the record's own name without its final dot. */
  function HostnameValue(trimmed: string, self: string): (r: Validation)
    requires |trimmed| > 0 && !IsWs(trimmed[0]) && !IsWs(trimmed[|trimmed| - 1])
    ensures r.Valid? ==> |r.value| > 0 && Trim(r.value) == r.value && AcceptedHostname(r.value) && r.value != self
    ensures r.Invalid? ==> r.message == HostnameExpected || r.message == SelfReference
  {
    var candidate := ToLower(trimmed);
    if !IsHostname(candidate) then Invalid(HostnameExpected)
    else if StripTrailingDot(candidate) == self then Invalid(SelfReference)
    else
      HostnameWithoutDot(candidate);
      LoweredName(trimmed);
      Valid(StripTrailingDot(candidate))
  }

  /** The lowercased trim without its final dot, when it ends in a host
      character, is lowercase, trimmed and has no final dot. */
  lemma LoweredName(t: string)
    requires |t| > 0 && !IsWs(t[0])
    requires var w := StripTrailingDot(ToLower(t)); |w| >= 2 && IsHostChar(w[|w| - 1])
    ensures var w := StripTrailingDot(ToLower(t));
      IsLowerCase(w) && w[|w| - 1] != '.' && Trim(w) == w && ToLower(w) == w && StripTrailingDot(w) == w
  {
    var c := ToLower(t);
    assert IsLowerCase(c) by { ToLowerIdempotent(t); }
    assert !IsWs(c[0]) by { LowerCharWs(t[0]); }
    StrippedName(c);
  }

  /** Dropping the final dot of a lowercase name keeps it lowercase and
      keeps its first character. */
  lemma StrippedName(c: string)
    requires |c| > 0 && IsLowerCase(c) && !IsWs(c[0])
    requires var w := StripTrailingDot(c); |w| >= 2 && IsHostChar(w[|w| - 1])
    ensures var w := StripTrailingDot(c);
      IsLowerCase(w) && w[|w| - 1] != '.' && Trim(w) == w && ToLower(w) == w && StripTrailingDot(w) == w
  {
    var w := StripTrailingDot(c);
    assert IsLowerCase(w) && w[0] == c[0] by {
      assert forall i :: 0 <= i < |w| ==> w[i] == c[i];
    }
    SettledName(w);
  }

  /** A lowercase name that starts with a non-blank and ends in a host
      character is its own trim, lowercasing and dot stripping. */
  lemma SettledName(w: string)
    requires |w| >= 2 && IsLowerCase(w) && !IsWs(w[0]) && IsHostChar(w[|w| - 1])
    ensures w[|w| - 1] != '.' && Trim(w) == w && ToLower(w) == w && StripTrailingDot(w) == w
  {
    HostCharNotBlank(w[|w| - 1]);
    ToLowerIdempotent(w);
    TrimFixedPoint(w);
  }

  /** A host character is neither a dot nor white space. */
  lemma HostCharNotBlank(c: char)
    requires IsHostChar(c)
    ensures c != '.' && !IsWs(c)
  {
  }

  /** A blank value (empty or white space only) is refused as missing,
      whatever the record type. */
  lemma BlankValueRefused(recordType: string, value: string, subdomain: string, domain: string)
    requires forall i :: 0 <= i < |value| ==> IsWs(value[i])
    ensures ValidateRecordValue(recordType, value, subdomain, domain) == Invalid(ValueRequired)
  {
    TrimEmpty(value);
  }

  /** For type `A` a non-blank value is accepted exactly when its trim is an
      IPv4 address, and the result is that trim with its case unchanged. */
  lemma AddressValidation(value: string, subdomain: string, domain: string)
    requires exists i :: 0 <= i < |value| && !IsWs(value[i])
    ensures var r := ValidateRecordValue("A", value, subdomain, domain);
      (r.Valid? <==> IsIPv4(Trim(value)))
      && (r.Valid? ==> r.value == Trim(value))
      && (r.Invalid? ==> r.message == AddressExpected)
  {
    TrimEmpty(value);
  }

  /** For any other type a non-blank value is accepted exactly when its
      lowercased trim is a hostname other than the record's own name (both
      compared without one final dot); the result is that hostname without
      its final dot. */
  lemma HostnameValidation(recordType: string, value: string, subdomain: string, domain: string)
    requires recordType != "A"
    requires exists i :: 0 <= i < |value| && !IsWs(value[i])
    ensures var r := ValidateRecordValue(recordType, value, subdomain, domain);
      var candidate := ToLower(Trim(value));
      (r.Valid? <==>
        IsHostname(candidate)
        && StripTrailingDot(candidate) != StripTrailingDot(ToLower(subdomain + "." + domain)))
      && (r.Valid? ==> r.value == StripTrailingDot(candidate))
      && (r.Invalid? && !IsHostname(candidate) ==> r.message == HostnameExpected)
  {
    TrimEmpty(value);
  }

  /** A target naming the record itself (ignoring case and a final dot) is refused. */
  lemma SelfReferenceRefused(recordType: string, value: string, subdomain: string, domain: string)
    requires recordType != "A"
    requires IsHostname(ToLower(Trim(value)))
    requires StripTrailingDot(ToLower(Trim(value))) == StripTrailingDot(ToLower(subdomain + "." + domain))
    ensures ValidateRecordValue(recordType, value, subdomain, domain) == Invalid(SelfReference)
  {
  }

  /** Validating an accepted value again, with the same type and names,
      accepts it unchanged. */
  lemma ValidationIdempotent(recordType: string, value: string, subdomain: string, domain: string)
    requires ValidateRecordValue(recordType, value, subdomain, domain).Valid?
    ensures var w := ValidateRecordValue(recordType, value, subdomain, domain).value;
      ValidateRecordValue(recordType, w, subdomain, domain) == Valid(w)
  {
    var t := Trim(value);
    var w := ValidateRecordValue(recordType, value, subdomain, domain).value;
    if recordType == "A" {
      TrimIdempotent(value);
    } else {
      var self := StripTrailingDot(ToLower(subdomain + "." + domain));
      assert HostnameValue(t, self) == Valid(w);
      assert Trim(w) == w && |w| > 0;
      assert HostnameValue(w, self) == Valid(w);
    }
  }
}
