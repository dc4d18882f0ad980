/** The few JavaScript string built-ins the services rely on, on `seq<char>`:
    the `\s` character class (which `String.prototype.trim` strips as well),
    ASCII `toLowerCase`, `split` on one character and its inverse `join`,
    and decimal digit strings as written by `parseInt` and template literals. */
module Text {

  datatype Option<T> = None | Some(value: T)

  /** The `\s` class of JavaScript regular expressions: white space and line terminators. */
  predicate IsWs(c: char) {
    c == ' ' || c == '\t' || c == '\n' || c == '\r' || c == '\U{000B}' || c == '\U{000C}'
    || c == '\U{00A0}' || c == '\U{1680}' || ('\U{2000}' <= c <= '\U{200A}')
    || c == '\U{2028}' || c == '\U{2029}' || c == '\U{202F}' || c == '\U{205F}'
    || c == '\U{3000}' || c == '\U{FEFF}'
  }

  predicate IsDigit(c: char) { '0' <= c <= '9' }

  predicate IsLower(c: char) { 'a' <= c <= 'z' }

  predicate IsUpper(c: char) { 'A' <= c <= 'Z' }

  /** The character class `[a-z0-9-]` of DNS labels. */
  predicate IsLabelChar(c: char) { IsLower(c) || IsDigit(c) || c == '-' }

  /** ASCII case mapping of `toLowerCase`. */
  function LowerChar(c: char): (d: char)
    ensures !IsUpper(d)
    ensures c == d <==> !IsUpper(c)
  {
    if IsUpper(c) then (c as int - 'A' as int + 'a' as int) as char else c
  }

  /** Lowercasing maps white space to white space and nothing else to it. */
  lemma LowerCharWs(c: char)
    ensures IsWs(LowerChar(c)) <==> IsWs(c)
  {
  }

  function ToLower(s: string): (r: string)
    ensures |r| == |s|
    ensures forall i :: 0 <= i < |s| ==> r[i] == LowerChar(s[i])
  {
    if s == [] then [] else [LowerChar(s[0])] + ToLower(s[1..])
  }

  predicate IsLowerCase(s: string) {
    forall i :: 0 <= i < |s| ==> !IsUpper(s[i])
  }

  lemma ToLowerIdempotent(s: string)
    ensures IsLowerCase(ToLower(s))
    ensures IsLowerCase(s) <==> ToLower(s) == s
  {
    if IsLowerCase(s) {
      assert forall i :: 0 <= i < |s| ==> ToLower(s)[i] == s[i];
    }
  }

  // ---------------------------------------------------------------- trim

  /** `trimStart`: drops the leading white space and nothing else. */
  function TrimStart(s: string): (r: string)
    ensures |r| <= |s| && r == s[|s| - |r|..]
    ensures forall i :: 0 <= i < |s| - |r| ==> IsWs(s[i])
    ensures |r| > 0 ==> !IsWs(r[0])
  {
    if |s| > 0 && IsWs(s[0]) then TrimStart(s[1..]) else s
  }

  /** `trimEnd`: drops the trailing white space and nothing else. */
  function TrimEnd(s: string): (r: string)
    ensures |r| <= |s| && r == s[..|r|]
    ensures forall i :: |r| <= i < |s| ==> IsWs(s[i])
    ensures |r| > 0 ==> !IsWs(r[|r| - 1])
  {
    if |s| > 0 && IsWs(s[|s| - 1]) then TrimEnd(s[..|s| - 1]) else s
  }

  /** `String.prototype.trim`. */
  function Trim(s: string): string {
    TrimEnd(TrimStart(s))
  }

  /** A string that neither starts nor ends with white space is its own trim;
      in particular trimming twice is trimming once. */
  lemma {:induction false} TrimFixedPoint(s: string)
    requires |s| > 0 ==> !IsWs(s[0]) && !IsWs(s[|s| - 1])
    ensures Trim(s) == s
  {
  }

  lemma TrimIdempotent(s: string)
    ensures Trim(Trim(s)) == Trim(s)
  {
    var t := Trim(s);
    if |t| > 0 {
      var u := TrimStart(s);
      assert t == u[..|t|];
      TrimFixedPoint(t);
    }
  }

  /** The trim is empty exactly when the string is all white space. */
  lemma TrimEmpty(s: string)
    ensures Trim(s) == [] <==> forall i :: 0 <= i < |s| ==> IsWs(s[i])
  {
    var u := TrimStart(s);
    if |u| > 0 {
      assert TrimEnd(u)[..0] == [] && u[0] == TrimEnd(u)[0];
    }
  }

  /** Trimming a string whose first character is not white space and that holds
      a non-blank character at or after position `k` leaves a prefix of it
      longer than `k`. */
  lemma TrimKeepsPrefix(s: string, k: nat)
    requires k < |s| && !IsWs(s[0])
    requires exists j :: k <= j < |s| && !IsWs(s[j])
    ensures |Trim(s)| > k && Trim(s) == s[..|Trim(s)|]
  {
    var j :| k <= j < |s| && !IsWs(s[j]);
    assert TrimStart(s) == s;
  }

  // --------------------------------------------------------- split / join

  /** `s.split(sep)` for a one-character separator: the pieces between the separators. */
  function Split(s: string, sep: char): (parts: seq<string>)
    ensures |parts| >= 1
    ensures forall i :: 0 <= i < |parts| ==> sep !in parts[i]
  {
    if |s| == 0 then [""]
    else
      var rest := Split(s[1..], sep);
      if s[0] == sep then [""] + rest
      else [[s[0]] + rest[0]] + rest[1..]
  }

  /** `parts.join(sep)`. */
  function Join(parts: seq<string>, sep: char): string
    requires |parts| >= 1
  {
    if |parts| == 1 then parts[0] else parts[0] + [sep] + Join(parts[1..], sep)
  }

  /** Joining the pieces of a split gives back the string. */
  lemma {:induction false} JoinSplit(s: string, sep: char)
    ensures Join(Split(s, sep), sep) == s
  {
    if |s| > 0 {
      JoinSplit(s[1..], sep);
      var rest := Split(s[1..], sep);
      if s[0] != sep {
        if |rest| == 1 {
        } else {
          assert rest == [rest[0]] + rest[1..];
          assert Join(rest, sep) == rest[0] + [sep] + Join(rest[1..], sep);
          assert ([s[0]] + rest[0]) + [sep] + Join(rest[1..], sep) == [s[0]] + Join(rest, sep);
        }
        assert s == [s[0]] + s[1..];
      } else {
        assert s == [s[0]] + s[1..];
      }
    }
  }

  /** A separator-free prefix followed by a separator is split off as one piece. */
  lemma {:induction false} SplitAfterPiece(x: string, sep: char, y: string)
    requires sep !in x
    ensures Split(x + [sep] + y, sep) == [x] + Split(y, sep)
  {
    if |x| == 0 {
      assert x + [sep] + y == [sep] + y;
      assert ([sep] + y)[1..] == y;
    } else {
      assert (x + [sep] + y)[1..] == x[1..] + [sep] + y;
      SplitAfterPiece(x[1..], sep, y);
      assert [x[0]] + x[1..] == x;
    }
  }

  /** A separator-free string is a single piece. */
  lemma {:induction false} SplitSingle(x: string, sep: char)
    requires sep !in x
    ensures Split(x, sep) == [x]
  {
    if |x| > 0 {
      SplitSingle(x[1..], sep);
      assert [x[0]] + x[1..] == x;
    }
  }

  /** Splitting a join of separator-free pieces gives back the pieces. */
  lemma {:induction false} SplitJoin(parts: seq<string>, sep: char)
    requires |parts| >= 1
    requires forall i :: 0 <= i < |parts| ==> sep !in parts[i]
    ensures Split(Join(parts, sep), sep) == parts
  {
    if |parts| == 1 {
      SplitSingle(parts[0], sep);
    } else {
      SplitJoin(parts[1..], sep);
      SplitAfterPiece(parts[0], sep, Join(parts[1..], sep));
      assert [parts[0]] + parts[1..] == parts;
    }
  }

  lemma {:induction false} JoinAppend(parts: seq<string>, sep: char, r: string)
    requires |parts| >= 1
    ensures Join(parts + [r], sep) == Join(parts, sep) + [sep] + r
  {
    if |parts| == 1 {
      assert (parts + [r])[1..] == [r];
    } else {
      assert (parts + [r])[1..] == parts[1..] + [r];
      JoinAppend(parts[1..], sep, r);
    }
  }

  /** A join splits at any inner piece boundary into the joins of both sides. */
  lemma {:induction false} JoinAt(parts: seq<string>, sep: char, j: nat)
    requires 0 < j < |parts|
    ensures Join(parts, sep) == Join(parts[..j], sep) + [sep] + Join(parts[j..], sep)
  {
    if j == 1 {
      assert parts[..1] == [parts[0]] && parts[1..] == parts[j..];
    } else {
      JoinAt(parts[1..], sep, j - 1);
      assert parts[1..][..j - 1] == parts[..j][1..] && parts[1..][j - 1..] == parts[j..];
      var a, b := Join(parts[..j][1..], sep), Join(parts[j..], sep);
      assert Join(parts[..j], sep) == parts[0] + [sep] + a;
      assert parts[0] + [sep] + (a + [sep] + b) == (parts[0] + [sep] + a) + [sep] + b;
    }
  }

  /** A property every piece's characters and the separator have holds of
      every character of the join. */
  lemma {:induction false} JoinAllChars(parts: seq<string>, sep: char, P: char -> bool)
    requires |parts| >= 1 && P(sep)
    requires forall p, q :: 0 <= p < |parts| && 0 <= q < |parts[p]| ==> P(parts[p][q])
    ensures forall i :: 0 <= i < |Join(parts, sep)| ==> P(Join(parts, sep)[i])
  {
    if |parts| > 1 {
      forall p, q | 0 <= p < |parts| - 1 && 0 <= q < |parts[1..][p]| ensures P(parts[1..][p][q]) {
        assert parts[1..][p] == parts[p + 1];
      }
      JoinAllChars(parts[1..], sep, P);
      var a, b := parts[0], Join(parts[1..], sep);
      forall i | 0 <= i < |a + [sep] + b| ensures P((a + [sep] + b)[i]) {
        if i < |a| {
          assert (a + [sep] + b)[i] == parts[0][i];
        } else if i > |a| {
          assert (a + [sep] + b)[i] == b[i - |a| - 1];
        }
      }
    }
  }

  /** Appending a separator and a separator-free piece adds exactly that piece. */
  lemma SplitAppend(s: string, sep: char, r: string)
    requires sep !in r
    ensures Split(s + [sep] + r, sep) == Split(s, sep) + [r]
  {
    var ps := Split(s, sep);
    JoinSplit(s, sep);
    JoinAppend(ps, sep, r);
    SplitJoin(ps + [r], sep);
  }

  // ------------------------------------------------------------- decimals

  function DigitValue(c: char): nat
    requires IsDigit(c)
  {
    c as int - '0' as int
  }

  function DigitChar(d: nat): (c: char)
    requires d < 10
    ensures IsDigit(c) && DigitValue(c) == d
  {
    ('0' as int + d) as char
  }

  predicate AllDigits(s: string) {
    forall i :: 0 <= i < |s| ==> IsDigit(s[i])
  }

  /** `parseInt(s, 10)` of a string of decimal digits (leading zeros allowed). */
  function DecimalValue(s: string): nat
    requires AllDigits(s)
  {
    if |s| == 0 then 0 else DecimalValue(s[..|s| - 1]) * 10 + DigitValue(s[|s| - 1])
  }

  /** The decimal numeral of `n`, as a template literal writes it. */
  function DecimalString(n: nat): (s: string)
    ensures |s| >= 1 && AllDigits(s)
    ensures s[0] == '0' ==> n == 0
    ensures (n < 10 <==> |s| == 1) && (n < 100 <==> |s| <= 2) && (n < 1000 <==> |s| <= 3)
  {
    if n < 10 then [DigitChar(n)] else DecimalString(n / 10) + [DigitChar(n % 10)]
  }

  /** Reading back a written numeral gives the number. */
  lemma {:induction false} DecimalRoundTrip(n: nat)
    ensures DecimalValue(DecimalString(n)) == n
  {
    if n >= 10 {
      DecimalRoundTrip(n / 10);
      var s := DecimalString(n);
      assert s[..|s| - 1] == DecimalString(n / 10);
    }
  }

  /** A numeral with no leading zero is the numeral of its value. */
  lemma {:induction false} DecimalCanonical(s: string)
    requires |s| >= 1 && AllDigits(s) && (|s| > 1 ==> s[0] != '0')
    ensures DecimalString(DecimalValue(s)) == s
  {
    if |s| > 1 {
      var q := s[..|s| - 1];
      DecimalCanonical(q);
      DecimalAtLeastFirst(q);
      assert q + [s[|s| - 1]] == s;
    }
  }

  lemma {:induction false} DecimalAtLeastFirst(s: string)
    requires |s| >= 1 && AllDigits(s)
    ensures DecimalValue(s) >= DigitValue(s[0])
  {
    if |s| > 1 {
      DecimalAtLeastFirst(s[..|s| - 1]);
    }
  }
}
