/** The text transformations of the BIND zone-file service: locating and
    bumping the `<digits> ; Serial` stamp, the record-line test of
    `findDnsRecord`, the append, replace and remove edits of the record
    operations and the `IN A` tally of `countManagedSubdomains`.
    Every regular expression of the service is written out as a scanner of
    greedy runs; each run is maximal because the character the pattern needs
    next can never be one the run consumes, so the regex engine would never
    backtrack into it. */
module ZoneText {
  import opened Text

  // ------------------------------------------------------------------ runs

  /** The character classes the patterns repeat: `\d`, `\s` and `.`. */
  datatype CharClass = Digits | Blanks | LineChars

  predicate In(c: char, p: CharClass) {
    match p
    case Digits => IsDigit(c)
    case Blanks => IsWs(c)
    case LineChars => IsValueChar(c)
  }

  /** The end of the longest run of `p`-characters of `s` starting at `k`. */
  function RunEnd(s: string, k: nat, p: CharClass): (j: nat)
    requires k <= |s|
    ensures k <= j <= |s|
    ensures forall i :: k <= i < j ==> In(s[i], p)
    ensures j < |s| ==> !In(s[j], p)
    decreases |s| - k
  {
    if k < |s| && In(s[k], p) then RunEnd(s, k + 1, p) else k
  }

  /** A run is fixed by where the characters stop satisfying `p`. */
  lemma {:induction false} RunEndIs(s: string, k: nat, j: nat, p: CharClass)
    requires k <= j <= |s|
    requires forall i :: k <= i < j ==> In(s[i], p)
    requires j < |s| ==> !In(s[j], p)
    ensures RunEnd(s, k, p) == j
    decreases j - k
  {
    if k < j {
      RunEndIs(s, k + 1, j, p);
    }
  }

  // --------------------------------------------------------------- serial

  /** Where a match of `(\d+)\s+;\s+Serial` lies: `[start, digitsEnd)` is the
      captured number and `end` follows `Serial`. */
  datatype SerialMatch = SerialMatch(start: nat, digitsEnd: nat, end: nat)

  /** The match of the serial pattern that starts at `k`, if there is one:
      the pattern scanned left to right, one character at a time. */
  function SerialAt(s: string, k: nat): (r: Option<SerialMatch>)
    requires k <= |s|
    ensures r.Some? ==> r.value.start == k < r.value.digitsEnd && r.value.digitsEnd + 6 < r.value.end <= |s|
    ensures r.Some? ==> AllDigits(s[k..r.value.digitsEnd])
  {
    var r := DigitsFrom(s, k, k);
    if r.None? then r
    else
      assert forall t :: 0 <= t < r.value.digitsEnd - k ==> s[k..r.value.digitsEnd][t] == s[k + t];
      r
  }

  /** Scanning `(\d+)` from `i`; the number started at `k`. */
  function DigitsFrom(s: string, k: nat, i: nat): (r: Option<SerialMatch>)
    requires k <= i <= |s| && forall t :: k <= t < i ==> IsDigit(s[t])
    ensures r.Some? ==>
      r.value.start == k < r.value.digitsEnd && i <= r.value.digitsEnd && r.value.digitsEnd + 6 < r.value.end <= |s|
    ensures r.Some? ==> forall t :: k <= t < r.value.digitsEnd ==> IsDigit(s[t])
    decreases |s| - i
  {
    if i < |s| && IsDigit(s[i]) then DigitsFrom(s, k, i + 1)
    else if i == k then None
    else GapFrom(s, k, i, i)
  }

  /** Scanning `\s+;` from `j`; the number ended at `d`. */
  function GapFrom(s: string, k: nat, d: nat, j: nat): (r: Option<SerialMatch>)
    requires k <= d <= j <= |s|
    ensures r.Some? ==> r.value.start == k && r.value.digitsEnd == d && j + 7 < r.value.end <= |s|
    decreases |s| - j
  {
    if j < |s| && IsWs(s[j]) then GapFrom(s, k, d, j + 1)
    else if j == d || j == |s| || s[j] != ';' then None
    else WordFrom(s, k, d, j + 1, j + 1)
  }

  /** Scanning `\s+Serial` from `j`; the blanks started at `w`. */
  function WordFrom(s: string, k: nat, d: nat, w: nat, j: nat): (r: Option<SerialMatch>)
    requires k <= d <= w <= j <= |s|
    ensures r.Some? ==> r.value.start == k && r.value.digitsEnd == d && w + 6 < r.value.end <= |s|
    ensures r.Some? ==> j + 6 <= r.value.end
    decreases |s| - j
  {
    if j < |s| && IsWs(s[j]) then WordFrom(s, k, d, w, j + 1)
    else if j == w || j + 6 > |s| || !SerialWordAt(s, j) then None
    else Some(SerialMatch(k, d, j + 6))
  }

  /** `Serial`, letter by letter, at `j`. */
  predicate SerialWordAt(s: string, j: nat)
    requires j + 6 <= |s|
  {
    s[j] == 'S' && s[j + 1] == 'e' && s[j + 2] == 'r' && s[j + 3] == 'i' && s[j + 4] == 'a' && s[j + 5] == 'l'
  }

  lemma SerialWordIs(s: string, j: nat)
    requires j + 6 <= |s|
    ensures SerialWordAt(s, j) <==> s[j..j + 6] == "Serial"
  {
    if SerialWordAt(s, j) {
      assert forall i :: 0 <= i < 6 ==> s[j..j + 6][i] == "Serial"[i];
    }
  }

  /** The same match described by where its runs end: the digit run from `k`,
      the blank run before `;` and the blank run before `Serial`. */
  function SerialAtRuns(s: string, k: nat): Option<SerialMatch>
    requires k <= |s|
  {
    var d := RunEnd(s, k, Digits);
    if d == k then None else AfterDigits(s, k, d)
  }

  function AfterDigits(s: string, k: nat, d: nat): Option<SerialMatch>
    requires k <= d <= |s|
  {
    var w := RunEnd(s, d, Blanks);
    if w == d || w == |s| || s[w] != ';' then None else AfterSemicolon(s, k, d, w + 1)
  }

  function AfterSemicolon(s: string, k: nat, d: nat, w: nat): Option<SerialMatch>
    requires k <= d <= w <= |s|
  {
    var w2 := RunEnd(s, w, Blanks);
    if w2 == w || w2 + 6 > |s| || !SerialWordAt(s, w2) then None
    else Some(SerialMatch(k, d, w2 + 6))
  }

  /** The scanner and the run description agree. */
  lemma SerialAtRunsIs(s: string, k: nat)
    requires k <= |s|
    ensures SerialAt(s, k) == SerialAtRuns(s, k)
  {
    DigitsRuns(s, k, k);
  }

  lemma {:induction false} DigitsRuns(s: string, k: nat, i: nat)
    requires k <= i <= |s| && forall t :: k <= t < i ==> IsDigit(s[t])
    ensures DigitsFrom(s, k, i) == SerialAtRuns(s, k)
    decreases |s| - i
  {
    if i < |s| && IsDigit(s[i]) {
      DigitsRuns(s, k, i + 1);
    } else {
      RunEndIs(s, k, i, Digits);
      if i > k {
        GapRuns(s, k, i, i);
      }
    }
  }

  lemma {:induction false} GapRuns(s: string, k: nat, d: nat, j: nat)
    requires k <= d <= j <= |s| && forall t :: d <= t < j ==> IsWs(s[t])
    ensures GapFrom(s, k, d, j) == AfterDigits(s, k, d)
    decreases |s| - j
  {
    if j < |s| && IsWs(s[j]) {
      GapRuns(s, k, d, j + 1);
    } else {
      GapEnd(s, k, d, j);
    }
  }

  /** Once the blanks after the number end, the scanner continues as the
      run description does. */
  lemma GapEnd(s: string, k: nat, d: nat, j: nat)
    requires k <= d <= j <= |s| && forall t :: d <= t < j ==> IsWs(s[t])
    requires j < |s| ==> !IsWs(s[j])
    ensures GapFrom(s, k, d, j) == AfterDigits(s, k, d)
  {
    RunEndIs(s, d, j, Blanks);
    if j == d || j == |s| || s[j] != ';' {
      assert AfterDigits(s, k, d) == None;
      assert GapFrom(s, k, d, j) == None;
    } else {
      WordRuns(s, k, d, j + 1, j + 1);
      assert AfterDigits(s, k, d) == AfterSemicolon(s, k, d, j + 1);
      assert GapFrom(s, k, d, j) == WordFrom(s, k, d, j + 1, j + 1);
    }
  }

  lemma {:induction false} WordRuns(s: string, k: nat, d: nat, w: nat, j: nat)
    requires k <= d <= w <= j <= |s| && forall t :: w <= t < j ==> IsWs(s[t])
    ensures WordFrom(s, k, d, w, j) == AfterSemicolon(s, k, d, w)
    decreases |s| - j
  {
    if j < |s| && IsWs(s[j]) {
      WordRuns(s, k, d, w, j + 1);
    } else {
      RunEndIs(s, w, j, Blanks);
    }
  }

  /** What a match consists of: a number, and after it no digit up to the
      end of `Serial`. */
  lemma SerialAtShape(s: string, k: nat)
    requires k <= |s| && SerialAt(s, k).Some?
    ensures var m := SerialAt(s, k).value;
      AllDigits(s[k..m.digitsEnd]) && s[m.end - 6..m.end] == "Serial"
      && forall j :: m.digitsEnd <= j < m.end ==> !IsDigit(s[j])
  {
    var m := SerialAt(s, k).value;
    DigitsShape(s, k, k);
    SerialWordIs(s, m.end - 6);
  }

  /** After the number the scanner meets no digit, and it ends on `Serial`. */
  lemma {:induction false} DigitsShape(s: string, k: nat, i: nat)
    requires k <= i <= |s| && forall t :: k <= t < i ==> IsDigit(s[t])
    requires DigitsFrom(s, k, i).Some?
    ensures var m := DigitsFrom(s, k, i).value;
      SerialWordAt(s, m.end - 6) && forall t :: m.digitsEnd <= t < m.end ==> !IsDigit(s[t])
    decreases |s| - i
  {
    if i < |s| && IsDigit(s[i]) {
      DigitsShape(s, k, i + 1);
    } else {
      GapShape(s, k, i, i);
    }
  }

  lemma {:induction false} GapShape(s: string, k: nat, d: nat, j: nat)
    requires k <= d <= j <= |s| && GapFrom(s, k, d, j).Some?
    ensures var m := GapFrom(s, k, d, j).value;
      SerialWordAt(s, m.end - 6) && forall t :: j <= t < m.end ==> !IsDigit(s[t])
    decreases |s| - j
  {
    if j < |s| && IsWs(s[j]) {
      GapShape(s, k, d, j + 1);
    } else {
      WordShape(s, k, d, j + 1, j + 1);
    }
  }

  lemma {:induction false} WordShape(s: string, k: nat, d: nat, w: nat, j: nat)
    requires k <= d <= w <= j <= |s| && WordFrom(s, k, d, w, j).Some?
    ensures var m := WordFrom(s, k, d, w, j).value;
      SerialWordAt(s, m.end - 6) && forall t :: j <= t < m.end ==> !IsDigit(s[t])
    decreases |s| - j
  {
    if j < |s| && IsWs(s[j]) {
      WordShape(s, k, d, w, j + 1);
    }
  }

  /** The leftmost match at or after `k`. */
  function FirstSerialFrom(s: string, k: nat): (r: Option<SerialMatch>)
    requires k <= |s|
    ensures r.Some? ==>
      k <= r.value.start <= |s| && SerialAt(s, r.value.start) == r
      && forall i :: k <= i < r.value.start ==> SerialAt(s, i).None?
    ensures r.None? ==> forall i :: k <= i <= |s| ==> SerialAt(s, i).None?
    decreases |s| - k
  {
    if SerialAt(s, k).Some? then SerialAt(s, k)
    else if k == |s| then None
    else FirstSerialFrom(s, k + 1)
  }

  /** `fileContent.match(serialRegex)`: the leftmost match, if any. */
  function FindSerial(s: string): Option<SerialMatch> {
    FirstSerialFrom(s, 0)
  }

  /** The version stamp of a zone file: `parseInt` of the first match's number. */
  function SerialOf(s: string): Option<nat> {
    match FindSerial(s)
    case None => None
    case Some(m) => Some(DecimalValue(s[m.start..m.digitsEnd]))
  }

  /** What replaces the match: the new number, nine spaces and `; Serial`. */
  function SerialText(n: nat): string {
    DecimalString(n) + StampTail()
  }

  /** The text after the new number: nine spaces and `; Serial`. */
  function StampTail(): string {
    Spaces(9) + "; Serial"
  }

  /** `fileContent.replace(serialRegex, `${newSerial}         ; Serial`)`:
      without a match there is nothing to bump. */
  function BumpSerial(s: string): (r: Option<string>)
    ensures r.None? <==> SerialOf(s).None?
    ensures r.Some? ==> var m := FindSerial(s).value;
      r.value == s[..m.start] + SerialText(SerialOf(s).value + 1) + s[m.end..]
  {
    match FindSerial(s)
    case None => None
    case Some(m) =>
      Some(s[..m.start] + SerialText(DecimalValue(s[m.start..m.digitsEnd]) + 1) + s[m.end..])
  }

  /** A match found first is never preceded by a digit: it would then
      start one character earlier. */
  lemma FirstSerialBoundary(s: string)
    requires FindSerial(s).Some? && FindSerial(s).value.start > 0
    ensures !IsDigit(s[FindSerial(s).value.start - 1])
  {
    var i := FindSerial(s).value.start;
    if IsDigit(s[i - 1]) {
      SerialAtExtends(s, i - 1);
      assert false;
    }
  }

  /** A digit before a match starts a match too: the number run simply grows. */
  lemma SerialAtExtends(s: string, k: nat)
    requires k < |s| && IsDigit(s[k]) && SerialAt(s, k + 1).Some?
    ensures SerialAt(s, k).Some?
  {
    SerialAtRunsIs(s, k);
    SerialAtRunsIs(s, k + 1);
    assert RunEnd(s, k, Digits) == RunEnd(s, k + 1, Digits);
  }

  /** A match found at `k` lies inside any string that agrees with `s` up to its end. */
  lemma SerialAtStable(s: string, t: string, k: nat)
    requires k <= |s| && SerialAt(s, k).Some?
    requires SerialAt(s, k).value.end <= |t| && t[..SerialAt(s, k).value.end] == s[..SerialAt(s, k).value.end]
    ensures SerialAt(t, k) == SerialAt(s, k)
  {
    DigitsStable(s, t, k, k);
  }

  lemma {:induction false} DigitsStable(s: string, t: string, k: nat, i: nat)
    requires k <= i <= |s| && forall j :: k <= j < i ==> IsDigit(s[j])
    requires DigitsFrom(s, k, i).Some?
    requires var e := DigitsFrom(s, k, i).value.end; e <= |t| && t[..e] == s[..e]
    ensures i <= |t| && (forall j :: k <= j < i ==> IsDigit(t[j])) && DigitsFrom(t, k, i) == DigitsFrom(s, k, i)
    decreases |s| - i
  {
    var e := DigitsFrom(s, k, i).value.end;
    assert forall j :: 0 <= j < e ==> t[j] == s[j] by {
      assert forall j :: 0 <= j < e ==> s[..e][j] == s[j] && t[..e][j] == t[j];
    }
    if i < |s| && IsDigit(s[i]) {
      DigitsStable(s, t, k, i + 1);
    } else {
      GapStable(s, t, k, i, i);
    }
  }

  lemma {:induction false} GapStable(s: string, t: string, k: nat, d: nat, j: nat)
    requires k <= d <= j <= |s| && GapFrom(s, k, d, j).Some?
    requires var e := GapFrom(s, k, d, j).value.end; e <= |t| && t[..e] == s[..e]
    ensures j <= |t| && GapFrom(t, k, d, j) == GapFrom(s, k, d, j)
    decreases |s| - j
  {
    var e := GapFrom(s, k, d, j).value.end;
    assert t[j] == t[..e][j] == s[..e][j] == s[j];
    if IsWs(s[j]) {
      GapStable(s, t, k, d, j + 1);
    } else {
      WordStable(s, t, k, d, j + 1, j + 1);
    }
  }

  lemma {:induction false} WordStable(s: string, t: string, k: nat, d: nat, w: nat, j: nat)
    requires k <= d <= w <= j <= |s| && WordFrom(s, k, d, w, j).Some?
    requires var e := WordFrom(s, k, d, w, j).value.end; e <= |t| && t[..e] == s[..e]
    ensures j <= |t| && WordFrom(t, k, d, w, j) == WordFrom(s, k, d, w, j)
    decreases |s| - j
  {
    var e := WordFrom(s, k, d, w, j).value.end;
    assert t[j] == t[..e][j] == s[..e][j] == s[j];
    if IsWs(s[j]) {
      WordStable(s, t, k, d, w, j + 1);
    } else {
      assert t[j..j + 6] == t[..e][j..j + 6] == s[..e][j..j + 6] == s[j..j + 6];
    }
  }

  /** Before position `i`, where both strings hold a digit not preceded by
      one, matches depend only on the common text before `i`. */
  lemma SerialAtBefore(s: string, t: string, k: nat, i: nat)
    requires k < i < |s| && i < |t| && s[..i] == t[..i]
    requires IsDigit(s[i]) && IsDigit(t[i]) && !IsDigit(s[i - 1])
    ensures SerialAt(s, k) == SerialAt(t, k)
  {
    if SerialAt(s, k).Some? {
      SerialEndsBefore(s, k, i);
      var e := SerialAt(s, k).value.end;
      assert t[..e] == s[..i][..e] == s[..e];
      SerialAtStable(s, t, k);
    } else if SerialAt(t, k).Some? {
      SerialEndsBefore(t, k, i);
      var e := SerialAt(t, k).value.end;
      assert s[..e] == t[..i][..e] == t[..e];
      SerialAtStable(t, s, k);
    }
  }

  /** A match starting before a digit that follows a non-digit ends before that digit. */
  lemma SerialEndsBefore(s: string, k: nat, i: nat)
    requires k < i < |s| && IsDigit(s[i]) && !IsDigit(s[i - 1]) && SerialAt(s, k).Some?
    ensures SerialAt(s, k).value.end <= i
  {
    SerialAtShape(s, k);
  }

  /** The leftmost match is at `i` when there is one at `i` and none before. */
  lemma {:induction false} FirstSerialIs(s: string, k: nat, i: nat)
    requires k <= i <= |s| && SerialAt(s, i).Some?
    requires forall j :: k <= j < i ==> SerialAt(s, j).None?
    ensures FirstSerialFrom(s, k) == SerialAt(s, i)
    decreases i - k
  {
    if k < i {
      assert SerialAt(s, k).None?;
      FirstSerialIs(s, k + 1, i);
      assert FirstSerialFrom(s, k) == FirstSerialFrom(s, k + 1);
    }
  }

  /** Bumping the stamp raises it by exactly one, leaves it where it was, and
      changes nothing before it. */
  lemma BumpSerialIncrements(s: string)
    requires SerialOf(s).Some?
    ensures var t := BumpSerial(s).value;
      SerialOf(t) == Some(SerialOf(s).value + 1)
      && FindSerial(t).value.start == FindSerial(s).value.start
      && t[..FindSerial(s).value.start] == s[..FindSerial(s).value.start]
  {
    var m := FindSerial(s).value;
    var i := m.start;
    var n := SerialOf(s).value + 1;
    var t := BumpSerial(s).value;
    Pieces(s[..i], SerialText(n), s[m.end..]);
    assert IsDigit(s[i]) by {
      assert s[i] == s[i..m.digitsEnd][0];
    }
    if i > 0 {
      FirstSerialBoundary(s);
    }
    SerialTextFirst(s, t, i, n);
  }

  /** Writing the replacement text where the first match of `s` starts makes
      it the first match of the new text, reading as `n`. */
  lemma SerialTextFirst(s: string, t: string, i: nat, n: nat)
    requires i < |s| && IsDigit(s[i]) && (i > 0 ==> !IsDigit(s[i - 1]))
    requires forall j :: 0 <= j < i ==> SerialAt(s, j).None?
    requires i + |SerialText(n)| <= |t| && t[..i] == s[..i] && t[i..i + |SerialText(n)|] == SerialText(n)
    ensures FindSerial(t) == Some(SerialMatch(i, i + |DecimalString(n)|, i + |SerialText(n)|))
    ensures SerialOf(t) == Some(n)
  {
    SerialTextMatches(t, i, n);
    forall j | 0 <= j < i ensures SerialAt(t, j).None? {
      SerialAtBefore(s, t, j, i);
    }
    FirstSerialIs(t, 0, i);
  }

  /** The stamp is the number of the leftmost match; there is none exactly
      when the pattern matches nowhere in the file. */
  lemma SerialLeftmost(s: string)
    ensures FindSerial(s).Some? ==>
      var m := FindSerial(s).value;
      m.start <= |s| && SerialAt(s, m.start) == Some(m)
      && (forall i :: 0 <= i < m.start ==> SerialAt(s, i).None?)
      && SerialOf(s) == Some(DecimalValue(s[m.start..m.digitsEnd]))
    ensures SerialOf(s).None? <==> forall i :: 0 <= i <= |s| ==> SerialAt(s, i).None?
  {
  }

  /** The stamp read from the first match. */
  lemma SerialOfIs(s: string, m: SerialMatch)
    requires FindSerial(s) == Some(m)
    ensures SerialOf(s) == Some(DecimalValue(s[m.start..m.digitsEnd]))
  {
  }

  /** The parts of a three-part concatenation. */
  lemma Pieces(a: string, u: string, b: string)
    ensures (a + u + b)[..|a|] == a && (a + u + b)[|a|..|a| + |u|] == u
    ensures (a + u + b)[|a| + |u|..] == b
  {
  }

  /** The replacement text is itself a match, whatever surrounds it. */
  lemma SerialTextMatches(t: string, i: nat, n: nat)
    requires i + |SerialText(n)| <= |t| && t[i..i + |SerialText(n)|] == SerialText(n)
    ensures SerialAt(t, i) == Some(SerialMatch(i, i + |DecimalString(n)|, i + |SerialText(n)|))
    ensures IsDigit(t[i]) && DecimalValue(t[i..i + |DecimalString(n)|]) == n
  {
    var d := DecimalString(n);
    var u := StampTail();
    var nd := |d|;
    StampTailChars();
    Halves(t, i, d, u);
    forall j | i <= j < i + nd ensures IsDigit(t[j]) {
      assert t[j] == d[j - i];
    }
    assert t[i + nd + 11..i + nd + 17] == u[11..];
    SerialLayout(t, i, nd);
    NumeralValue(t, i, n);
  }

  /** The two halves of a piece `d + u` of `t`. */
  lemma Halves(t: string, i: nat, d: string, u: string)
    requires i + |d + u| <= |t| && t[i..i + |d + u|] == d + u
    ensures t[i..i + |d|] == d && forall j :: 0 <= j < |u| ==> t[i + |d| + j] == u[j]
  {
    forall j | 0 <= j < |u| ensures t[i + |d| + j] == u[j] {
      assert t[i + |d| + j] == t[i..i + |d + u|][|d| + j];
    }
    assert t[i..i + |d|] == t[i..i + |d + u|][..|d|];
  }

  /** The tail character by character. */
  lemma StampTailChars()
    ensures var u := StampTail();
      |u| == 17 && (forall j :: 0 <= j < 9 ==> u[j] == ' ')
      && u[9] == ';' && u[10] == ' ' && u[11..] == "Serial"
  {
  }

  /** The numeral at the head of the replacement text reads back as `n`. */
  lemma NumeralValue(t: string, i: nat, n: nat)
    requires i + |DecimalString(n)| <= |t| && t[i..i + |DecimalString(n)|] == DecimalString(n)
    ensures IsDigit(t[i]) && DecimalValue(t[i..i + |DecimalString(n)|]) == n
  {
    assert t[i] == DecimalString(n)[0];
    DecimalRoundTrip(n);
  }

  /** A numeral, nine blanks, `;`, one blank and `Serial` form a match. */
  lemma SerialLayout(t: string, i: nat, nd: nat)
    requires 0 < nd && i + nd + 17 <= |t|
    requires forall j :: i <= j < i + nd ==> IsDigit(t[j])
    requires forall j :: i + nd <= j < i + nd + 9 ==> t[j] == ' '
    requires t[i + nd + 9] == ';' && t[i + nd + 10] == ' ' && t[i + nd + 11..i + nd + 17] == "Serial"
    ensures SerialAt(t, i) == Some(SerialMatch(i, i + nd, i + nd + 17))
  {
    assert t[i + nd + 11] == t[i + nd + 11..i + nd + 17][0];
    RunEndIs(t, i, i + nd, Digits);
    RunEndIs(t, i + nd, i + nd + 9, Blanks);
    RunEndIs(t, i + nd + 10, i + nd + 11, Blanks);
    SerialAtIs(t, i, i + nd, i + nd + 9, i + nd + 11);
  }

  /** The match at `k`, given where its digit run and its two white-space runs end. */
  lemma SerialAtIs(s: string, k: nat, d: nat, w: nat, w2: nat)
    requires k < d <= |s| && RunEnd(s, k, Digits) == d
    requires d < w < |s| && RunEnd(s, d, Blanks) == w && s[w] == ';'
    requires w + 1 < w2 && w2 + 6 <= |s| && RunEnd(s, w + 1, Blanks) == w2
    requires s[w2..w2 + 6] == "Serial"
    ensures SerialAt(s, k) == Some(SerialMatch(k, d, w2 + 6))
  {
    SerialWordIs(s, w2);
    SerialAtRunsIs(s, k);
  }

  /** Text added after the file leaves its stamp, and its bump, unchanged. */
  lemma SerialStableUnderAppend(s: string, x: string)
    requires SerialOf(s).Some?
    ensures FindSerial(s + x) == FindSerial(s)
    ensures SerialOf(s + x) == SerialOf(s)
    ensures BumpSerial(s + x) == Some(BumpSerial(s).value + x)
  {
    var t := s + x;
    var m := FindSerial(s).value;
    assert t[..m.end] == s[..m.end];
    FirstSerialStable(s, t);
    assert t[m.start..m.digitsEnd] == s[m.start..m.digitsEnd];
    SerialOfIs(s, m);
    SerialOfIs(t, m);
    assert t[..m.start] == s[..m.start];
    assert t[m.end..] == s[m.end..] + x;
    var text := SerialText(SerialOf(s).value + 1);
    assert BumpSerial(t).value == s[..m.start] + text + (s[m.end..] + x);
    assert s[..m.start] + text + (s[m.end..] + x) == (s[..m.start] + text + s[m.end..]) + x;
  }

  /** The first match depends only on the text up to its end. */
  lemma FirstSerialStable(s: string, t: string)
    requires FindSerial(s).Some?
    requires var e := FindSerial(s).value.end; e <= |t| && t[..e] == s[..e]
    ensures FindSerial(t) == FindSerial(s)
  {
    var m := FindSerial(s).value;
    var i := m.start;
    SerialAtStable(s, t, i);
    assert IsDigit(s[i]) && IsDigit(t[i]) by {
      assert s[i] == s[i..m.digitsEnd][0] && t[i] == t[..m.end][i] == s[..m.end][i];
    }
    if i > 0 {
      FirstSerialBoundary(s);
    }
    forall j | 0 <= j < i ensures SerialAt(t, j).None? {
      assert s[..i] == t[..i] by {
        assert s[..i] == s[..m.end][..i] && t[..i] == t[..m.end][..i];
      }
      SerialAtBefore(s, t, j, i);
    }
    FirstSerialIs(t, 0, i);
  }

  // --------------------------------------------------------- record lines

  /** `s[k..]` starts with `lit`, ignoring ASCII case (the `i` flag). */
  predicate StartsWithCi(s: string, k: nat, lit: string)
    requires k <= |s|
    ensures StartsWithCi(s, k, lit) ==> k + |lit| <= |s|
    decreases lit
  {
    lit == [] || (k < |s| && LowerChar(s[k]) == LowerChar(lit[0]) && StartsWithCi(s, k + 1, lit[1..]))
  }

  /** A literal written out at `k` passes the test. */
  lemma {:induction false} StartsWithCiOf(s: string, k: nat, lit: string)
    requires k + |lit| <= |s| && s[k..k + |lit|] == lit
    ensures StartsWithCi(s, k, lit)
    decreases lit
  {
    if lit != [] {
      assert s[k] == lit[0];
      assert s[k + 1..k + 1 + |lit[1..]|] == lit[1..];
      StartsWithCiOf(s, k + 1, lit[1..]);
    }
  }

  /** The test reads nothing beyond the literal's length. */
  lemma {:induction false} StartsWithCiAgree(s: string, t: string, k: nat, lit: string)
    requires k + |lit| <= |s| && k + |lit| <= |t| && s[..k + |lit|] == t[..k + |lit|]
    ensures StartsWithCi(s, k, lit) == StartsWithCi(t, k, lit)
    decreases lit
  {
    if lit != [] {
      assert s[k] == t[k];
      StartsWithCiAgree(s, t, k + 1, lit[1..]);
    }
  }

  /** The test agrees on two strings with the same first `m` characters when the literal fits before `m`. */
  lemma StartsWithCiWithin(s: string, t: string, k: nat, m: nat, lit: string)
    requires k + |lit| <= m <= |s| && m <= |t| && s[..m] == t[..m]
    ensures StartsWithCi(s, k, lit) == StartsWithCi(t, k, lit)
  {
    assert s[..m][..k + |lit|] == s[..k + |lit|] && t[..m][..k + |lit|] == t[..k + |lit|];
    StartsWithCiAgree(s, t, k, lit);
  }

  /** A subdomain that reads literally inside a regular expression. */
  predicate IsLiteralLabel(sub: string) {
    |sub| >= 1 && forall i :: 0 <= i < |sub| ==> IsLabelChar(sub[i])
  }

  /** The match of `^<sub>\s+IN\s+A\s+` at the start of a line, case-insensitive:
      the length of the matched prefix, which ends the last white-space run. */
  function RecordPrefix(line: string, sub: string): (r: Option<nat>)
    ensures r.Some? ==>
      |sub| < r.value <= |line| && StartsWithCi(line, 0, sub)
      && IsWs(line[r.value - 1]) && (r.value < |line| ==> !IsWs(line[r.value]))
  {
    if StartsWithCi(line, 0, sub) then
      BlanksThenEndsBlank(line, ["IN", "A"], |sub|, |sub|);
      BlanksThen(line, ["IN", "A"], |sub|, |sub|)
    else None
  }

  /** The rest of the prefix pattern, `\s+<tokens[0]>\s+<tokens[1]>…\s+`, scanned
      at `j` inside a white-space run that started at `a`: where the last run ends. */
  function BlanksThen(line: string, tokens: seq<string>, a: nat, j: nat): (r: Option<nat>)
    requires a <= j <= |line|
    ensures r.Some? ==> a < r.value <= |line| && j <= r.value && (r.value < |line| ==> !IsWs(line[r.value]))
    decreases |tokens|, |line| - j
  {
    if j < |line| && IsWs(line[j]) then BlanksThen(line, tokens, a, j + 1)
    else if j == a then None
    else if tokens == [] then Some(j)
    else if StartsWithCi(line, j, tokens[0]) then
      BlanksThen(line, tokens[1..], j + |tokens[0]|, j + |tokens[0]|)
    else None
  }

  /** The scan ends just after white space: every match ends with a run of it. */
  lemma {:induction false} BlanksThenEndsBlank(line: string, tokens: seq<string>, a: nat, j: nat)
    requires a <= j <= |line| && (j == a || IsWs(line[j - 1]))
    ensures var r := BlanksThen(line, tokens, a, j); r.Some? ==> IsWs(line[r.value - 1])
    decreases |tokens|, |line| - j
  {
    if j < |line| && IsWs(line[j]) {
      BlanksThenEndsBlank(line, tokens, a, j + 1);
    } else if j != a && tokens != [] && StartsWithCi(line, j, tokens[0]) {
      BlanksThenEndsBlank(line, tokens[1..], j + |tokens[0]|, j + |tokens[0]|);
    }
  }

  predicate DeclaresRecord(line: string, sub: string) {
    RecordPrefix(line, sub).Some?
  }

  /** A line that agrees with a declaring line over its prefix, and then ends
      or goes on with a non-blank character, declares the record with the same prefix. */
  lemma RecordPrefixStable(s: string, t: string, sub: string)
    requires RecordPrefix(s, sub).Some?
    requires var k := RecordPrefix(s, sub).value;
      k <= |t| && t[..k] == s[..k] && (k < |t| ==> !IsWs(t[k]))
    ensures RecordPrefix(t, sub) == RecordPrefix(s, sub)
  {
    var k := RecordPrefix(s, sub).value;
    StartsWithCiWithin(s, t, 0, k, sub);
    BlanksThenStable(s, t, ["IN", "A"], |sub|, |sub|, k);
  }

  lemma {:induction false} BlanksThenStable(s: string, t: string, tokens: seq<string>, a: nat, j: nat, k: nat)
    requires a <= j <= |s| && BlanksThen(s, tokens, a, j) == Some(k)
    requires k <= |t| && t[..k] == s[..k] && (k < |t| ==> !IsWs(t[k]))
    requires j <= |t|
    ensures BlanksThen(t, tokens, a, j) == Some(k)
    decreases |tokens|, |s| - j
  {
    if j < |s| && IsWs(s[j]) {
      SameAt(s, t, k, j);
      BlanksThenStable(s, t, tokens, a, j + 1, k);
      BlanksThenSkip(t, tokens, a, j, j + 1);
    } else if tokens != [] {
      var n := |tokens[0]|;
      assert j != a && StartsWithCi(s, j, tokens[0]);
      BlanksThenToken(s, tokens, a, j);
      SameAt(s, t, k, j);
      StartsWithCiWithin(s, t, j, k, tokens[0]);
      BlanksThenStable(s, t, tokens[1..], j + n, j + n, k);
      BlanksThenToken(t, tokens, a, j);
    } else {
      assert j == k;
    }
  }

  /** A token found after a white-space run starts the next run. */
  lemma BlanksThenToken(line: string, tokens: seq<string>, a: nat, j: nat)
    requires a < j <= |line| && (j < |line| ==> !IsWs(line[j]))
    requires tokens != [] && StartsWithCi(line, j, tokens[0])
    ensures BlanksThen(line, tokens, a, j) == BlanksThen(line, tokens[1..], j + |tokens[0]|, j + |tokens[0]|)
  {
  }

  /** Two strings with the same first `k` characters agree at every `j < k`. */
  lemma SameAt(s: string, t: string, k: nat, j: nat)
    requires j < k <= |s| && k <= |t| && t[..k] == s[..k]
    ensures t[j] == s[j]
  {
    assert t[j] == t[..k][j];
  }

  /** A white-space run is skipped whole. */
  lemma {:induction false} BlanksThenSkip(line: string, tokens: seq<string>, a: nat, j: nat, b: nat)
    requires a <= j <= b <= |line| && forall i :: j <= i < b ==> IsWs(line[i])
    ensures BlanksThen(line, tokens, a, j) == BlanksThen(line, tokens, a, b)
    decreases b - j
  {
    if j < b {
      BlanksThenSkip(line, tokens, a, j + 1, b);
    }
  }

  /** The name is matched whole: a longer name ending in `sub` and a longer
      name starting with it do not declare it. */
  lemma NameBoundaryExample()
    ensures !DeclaresRecord("myapi IN A 1", "api")
    ensures !DeclaresRecord("api2 IN A 1", "api")
  {
    assert !StartsWithCi("myapi IN A 1", 0, "api");
    var l := "api2 IN A 1";
    assert l[3] == '2';
    assert BlanksThen(l, ["IN", "A"], 3, 3) == None;
  }

  /** The type must be `A` followed by white space: an `AAAA` line does not
      declare an address record. */
  lemma QuadAExample()
    ensures !DeclaresRecord("api IN AAAA ::1", "api")
  {
    var l := "api IN AAAA ::1";
    QuadATail();
    assert StartsWithCi(l, 4, "IN") by {
      assert StartsWithCi(l, 6, []);
    }
    assert ["IN", "A"][1..] == ["A"];
    assert BlanksThen(l, ["IN", "A"], 3, 4) == None;
  }

  /** After `IN`, the `A` of `AAAA` is not followed by white space. */
  lemma QuadATail()
    ensures BlanksThen("api IN AAAA ::1", ["A"], 6, 6) == None
  {
    var l := "api IN AAAA ::1";
    assert BlanksThen(l, [], 8, 8) == None;
    assert StartsWithCi(l, 7, "A") by {
      assert StartsWithCi(l, 8, []);
    }
    assert ["A"][1..] == [];
    assert BlanksThen(l, ["A"], 6, 7) == None;
  }

  /** Name, class and type are matched regardless of case. */
  lemma CaseExample()
    ensures RecordPrefix("API in a 1", "api") == Some(9)
  {
  }

  /** The name is matched whole: a declaring line starts with the name and the
      character right after it is white space. */
  lemma DeclaresNameBoundary(line: string, sub: string)
    requires DeclaresRecord(line, sub)
    ensures StartsWithCi(line, 0, sub) && |sub| < |line| && IsWs(line[|sub|])
  {
  }

  /** The type is `A` and nothing longer: a line whose type token after `IN`
      starts with `A` but goes on with a non-blank character (`AAAA`), or
      ends the line, does not declare an address record. */
  lemma {:induction false} TypeMustBeA(line: string, sub: string, b: nat, c: nat)
    requires |sub| < b && b + 2 < c < |line|
    requires forall i :: |sub| <= i < b ==> IsWs(line[i])
    requires StartsWithCi(line, b, "IN")
    requires forall i :: b + 2 <= i < c ==> IsWs(line[i])
    requires LowerChar(line[c]) == 'a' && (c + 1 < |line| ==> !IsWs(line[c + 1]))
    ensures !DeclaresRecord(line, sub)
  {
    if StartsWithCi(line, 0, sub) {
      assert !IsWs(line[b]) && !IsWs(line[c]) by {
        LowerCharWs(line[b]);
        LowerCharWs(line[c]);
      }
      BlanksThenTokenAfter(line, ["IN", "A"], |sub|, b);
      assert ["IN", "A"][1..] == ["A"];
      assert StartsWithCi(line, c, "A") by {
        assert StartsWithCi(line, c + 1, []);
      }
      BlanksThenTokenAfter(line, ["A"], b + 2, c);
      assert ["A"][1..] == [];
      assert BlanksThen(line, [], c + 1, c + 1) == None;
    }
  }

  /** A white-space run from `a` to `b` followed by the next token moves the
      scan past the token. */
  lemma BlanksThenTokenAfter(line: string, tokens: seq<string>, a: nat, b: nat)
    requires a < b < |line| && !IsWs(line[b]) && forall i :: a <= i < b ==> IsWs(line[i])
    requires tokens != [] && StartsWithCi(line, b, tokens[0])
    ensures BlanksThen(line, tokens, a, a) == BlanksThen(line, tokens[1..], b + |tokens[0]|, b + |tokens[0]|)
  {
    BlanksThenSkip(line, tokens, a, a, b);
    BlanksThenToken(line, tokens, a, b);
  }

  /** Any spacing will do: a line with the name, a white-space run, `IN`, a
      white-space run, `A` and a white-space run ending at `d` before a
      non-blank character or the end of the line declares the record with
      the prefix ending at `d`, whatever the blanks are (spaces, tabs, …). */
  lemma RecordPrefixOf(line: string, sub: string, b: nat, c: nat, d: nat)
    requires |sub| < b && b + 2 < c && c + 1 < d <= |line|
    requires StartsWithCi(line, 0, sub)
    requires forall i :: |sub| <= i < b ==> IsWs(line[i])
    requires StartsWithCi(line, b, "IN")
    requires forall i :: b + 2 <= i < c ==> IsWs(line[i])
    requires StartsWithCi(line, c, "A")
    requires forall i :: c + 1 <= i < d ==> IsWs(line[i])
    requires d < |line| ==> !IsWs(line[d])
    ensures RecordPrefix(line, sub) == Some(d)
  {
    BlankRunEnds(line, c + 1, d);
    AStep(line, b + 2, c, d);
    InStep(line, |sub|, b, d);
    PrefixFromScan(line, sub, d);
  }

  /** A last white-space run from `a` to `d`, before a non-blank character or
      the end of the line, ends the scan at `d`. */
  lemma BlankRunEnds(line: string, a: nat, d: nat)
    requires a < d <= |line| && forall i :: a <= i < d ==> IsWs(line[i])
    requires d < |line| ==> !IsWs(line[d])
    ensures BlanksThen(line, [], a, a) == Some(d)
  {
    BlanksThenSkip(line, [], a, a, d);
  }

  /** With the name in place, the prefix ends where the scan for `IN A` does. */
  lemma PrefixFromScan(line: string, sub: string, d: nat)
    requires StartsWithCi(line, 0, sub) && BlanksThen(line, ["IN", "A"], |sub|, |sub|) == Some(d)
    ensures RecordPrefix(line, sub) == Some(d)
  {
  }

  /** A white-space run from `a` to `b` followed by `IN`, then a scan for `A`
      that ends at `d`, make the scan for `IN A` end at `d`. */
  lemma InStep(line: string, a: nat, b: nat, d: nat)
    requires a < b && b + 2 <= |line| && forall i :: a <= i < b ==> IsWs(line[i])
    requires StartsWithCi(line, b, "IN") && BlanksThen(line, ["A"], b + 2, b + 2) == Some(d)
    ensures BlanksThen(line, ["IN", "A"], a, a) == Some(d)
  {
    assert !IsWs(line[b]) by {
      LowerCharWs(line[b]);
    }
    BlanksThenTokenAfter(line, ["IN", "A"], a, b);
    assert ["IN", "A"][1..] == ["A"];
  }

  /** A white-space run from `a` to `c` followed by `A`, then a final run that
      ends at `d`, make the scan for `A` end at `d`. */
  lemma AStep(line: string, a: nat, c: nat, d: nat)
    requires a < c && c + 1 <= |line| && forall i :: a <= i < c ==> IsWs(line[i])
    requires StartsWithCi(line, c, "A") && BlanksThen(line, [], c + 1, c + 1) == Some(d)
    ensures BlanksThen(line, ["A"], a, a) == Some(d)
  {
    assert !IsWs(line[c]) by {
      LowerCharWs(line[c]);
    }
    BlanksThenTokenAfter(line, ["A"], a, c);
    assert ["A"][1..] == [];
  }

  /** Conversely, every match has that form: the name, a white-space run,
      `IN`, a white-space run, `A` (both ignoring case) and a white-space run
      up to where the prefix ends. */
  lemma RecordPrefixShape(line: string, sub: string) returns (b: nat, c: nat)
    requires RecordPrefix(line, sub).Some?
    ensures var d := RecordPrefix(line, sub).value;
      |sub| < b && b + 2 < c && c + 1 < d <= |line|
      && StartsWithCi(line, 0, sub)
      && (forall i :: |sub| <= i < b ==> IsWs(line[i]))
      && StartsWithCi(line, b, "IN")
      && (forall i :: b + 2 <= i < c ==> IsWs(line[i]))
      && StartsWithCi(line, c, "A")
      && (forall i :: c + 1 <= i < d ==> IsWs(line[i]))
  {
    var d := RecordPrefix(line, sub).value;
    assert BlanksThen(line, ["IN", "A"], |sub|, |sub|) == Some(d);
    b := ScanToken(line, ["IN", "A"], |sub|, |sub|);
    assert ["IN", "A"][1..] == ["A"];
    c := ScanAThenEnd(line, b + 2, d);
  }

  /** A scan for `A` from `a` that ends at `d` reads a white-space run up to
      some `c`, the `A` at `c` and a white-space run from `c + 1` to `d`. */
  lemma ScanAThenEnd(line: string, a: nat, d: nat) returns (c: nat)
    requires a <= |line| && BlanksThen(line, ["A"], a, a) == Some(d)
    ensures a < c && c + 1 < d <= |line| && (forall i :: a <= i < c ==> IsWs(line[i]))
    ensures StartsWithCi(line, c, "A") && forall i :: c + 1 <= i < d ==> IsWs(line[i])
  {
    c := ScanToken(line, ["A"], a, a);
    assert ["A"][1..] == [];
    ScanEnd(line, c + 1, c + 1, d);
  }

  /** A scan that succeeds reads a white-space run from `a` to some `b`, then
      its first token at `b`, and goes on just after that token. */
  lemma {:induction false} ScanToken(line: string, tokens: seq<string>, a: nat, j: nat) returns (b: nat)
    requires a <= j <= |line| && forall i :: a <= i < j ==> IsWs(line[i])
    requires tokens != [] && BlanksThen(line, tokens, a, j).Some?
    ensures a < b && b + |tokens[0]| <= |line| && forall i :: a <= i < b ==> IsWs(line[i])
    ensures StartsWithCi(line, b, tokens[0])
    ensures BlanksThen(line, tokens, a, j) == BlanksThen(line, tokens[1..], b + |tokens[0]|, b + |tokens[0]|)
    decreases |line| - j
  {
    if j < |line| && IsWs(line[j]) {
      b := ScanToken(line, tokens, a, j + 1);
    } else {
      b := j;
    }
  }

  /** The run that closes a scan with no token left is white space throughout. */
  lemma {:induction false} ScanEnd(line: string, a: nat, j: nat, d: nat)
    requires a <= j <= |line| && forall i :: a <= i < j ==> IsWs(line[i])
    requires BlanksThen(line, [], a, j) == Some(d)
    ensures forall i :: a <= i < d ==> IsWs(line[i])
    decreases |line| - j
  {
    if j < |line| && IsWs(line[j]) {
      ScanEnd(line, a, j + 1, d);
    }
  }

  /** Two strings that differ at most in the case of their letters. */
  predicate SameUpToCase(s: string, t: string) {
    |s| == |t| && forall i :: 0 <= i < |s| ==> LowerChar(s[i]) == LowerChar(t[i])
  }

  /** Name, class and type are matched regardless of case: a line and a name
      that differ only in case find the same prefix. */
  lemma DeclaresUpToCase(line: string, line': string, sub: string, sub': string)
    requires SameUpToCase(line, line') && SameUpToCase(sub, sub')
    ensures RecordPrefix(line', sub') == RecordPrefix(line, sub)
  {
    StartsWithCiCase(line, line', 0, sub);
    StartsWithCiLiteralCase(line', 0, sub, sub');
    if StartsWithCi(line, 0, sub) {
      BlanksThenCase(line, line', ["IN", "A"], |sub|, |sub|);
    }
  }

  /** In particular, lowercasing the line and the name does not change whether
      the line declares the record. */
  lemma DeclaresIgnoresCase(line: string, sub: string)
    ensures RecordPrefix(ToLower(line), ToLower(sub)) == RecordPrefix(line, sub)
    ensures DeclaresRecord(ToLower(line), ToLower(sub)) <==> DeclaresRecord(line, sub)
  {
    DeclaresUpToCase(line, ToLower(line), sub, ToLower(sub));
  }

  /** The case-insensitive test cannot tell apart texts that differ only in case. */
  lemma {:induction false} StartsWithCiCase(s: string, t: string, k: nat, lit: string)
    requires SameUpToCase(s, t) && k <= |s|
    ensures StartsWithCi(t, k, lit) == StartsWithCi(s, k, lit)
    decreases lit
  {
    if lit != [] && k < |s| {
      StartsWithCiCase(s, t, k + 1, lit[1..]);
    }
  }

  /** Nor literals that differ only in case. */
  lemma {:induction false} StartsWithCiLiteralCase(s: string, k: nat, lit: string, lit': string)
    requires SameUpToCase(lit, lit') && k <= |s|
    ensures StartsWithCi(s, k, lit') == StartsWithCi(s, k, lit)
    decreases lit
  {
    if lit != [] && k < |s| {
      StartsWithCiLiteralCase(s, k + 1, lit[1..], lit'[1..]);
    }
  }

  /** Letters and white space are disjoint, so case does not change blankness. */
  lemma BlankUpToCase(s: string, t: string, j: nat)
    requires SameUpToCase(s, t) && j < |s|
    ensures IsWs(t[j]) == IsWs(s[j])
  {
    LowerCharWs(s[j]);
    LowerCharWs(t[j]);
  }

  /** The white-space and token scan cannot tell apart lines that differ only in case. */
  lemma {:induction false} BlanksThenCase(s: string, t: string, tokens: seq<string>, a: nat, j: nat)
    requires SameUpToCase(s, t) && a <= j <= |s|
    ensures BlanksThen(t, tokens, a, j) == BlanksThen(s, tokens, a, j)
    decreases |tokens|, |s| - j
  {
    if j < |s| && IsWs(s[j]) {
      BlankUpToCase(s, t, j);
      BlanksThenCase(s, t, tokens, a, j + 1);
      BlanksThenSkip(s, tokens, a, j, j + 1);
      BlanksThenSkip(t, tokens, a, j, j + 1);
    } else {
      if j < |s| {
        BlankUpToCase(s, t, j);
      }
      if j != a && tokens != [] {
        StartsWithCiCase(s, t, j, tokens[0]);
        if StartsWithCi(s, j, tokens[0]) {
          BlanksThenCase(s, t, tokens[1..], j + |tokens[0]|, j + |tokens[0]|);
        }
      }
    }
  }

  /** The characters `.` matches: all but the line terminators. */
  predicate IsValueChar(c: char) {
    c != '\n' && c != '\r' && c != '\U{2028}' && c != '\U{2029}'
  }

  /** `findDnsRecord`'s test: some line of the file, trimmed, starts with
      `<sub>\s+IN\s+A\s+`. */
  predicate HasRecord(content: string, sub: string) {
    var lines := Split(content, '\n');
    exists i :: 0 <= i < |lines| && DeclaresRecord(Trim(lines[i]), sub)
  }

  /** The first line at or after `from` that declares the record, untrimmed:
      where the multi-line patterns of update and delete match. */
  function FirstRecordLine(lines: seq<string>, sub: string, from: nat): (r: Option<nat>)
    requires from <= |lines|
    ensures r.Some? ==>
      from <= r.value < |lines| && DeclaresRecord(lines[r.value], sub)
      && forall i :: from <= i < r.value ==> !DeclaresRecord(lines[i], sub)
    ensures r.None? ==> forall i :: from <= i < |lines| ==> !DeclaresRecord(lines[i], sub)
    decreases |lines| - from
  {
    if from == |lines| then None
    else if DeclaresRecord(lines[from], sub) then Some(from)
    else FirstRecordLine(lines, sub, from + 1)
  }

  /** How many lines declare the record. */
  function CountRecords(lines: seq<string>, sub: string): nat {
    if lines == [] then 0
    else (if DeclaresRecord(lines[0], sub) then 1 else 0) + CountRecords(lines[1..], sub)
  }

  lemma {:induction false} CountRecordsConcat(a: seq<string>, b: seq<string>, sub: string)
    ensures CountRecords(a + b, sub) == CountRecords(a, sub) + CountRecords(b, sub)
  {
    if a == [] {
      assert a + b == b;
    } else {
      assert (a + b)[0] == a[0] && (a + b)[1..] == a[1..] + b;
      CountRecordsConcat(a[1..], b, sub);
    }
  }

  /** Replacing one line changes the count by that line alone. */
  lemma CountRecordsReplace(lines: seq<string>, j: nat, x: string, sub: string)
    requires j < |lines|
    ensures CountRecords(lines[j := x], sub) + CountRecords([lines[j]], sub)
         == CountRecords(lines, sub) + CountRecords([x], sub)
  {
    assert lines == lines[..j] + [lines[j]] + lines[j + 1..];
    assert lines[j := x] == lines[..j] + [x] + lines[j + 1..];
    CountRecordsConcat(lines[..j] + [lines[j]], lines[j + 1..], sub);
    CountRecordsConcat(lines[..j], [lines[j]], sub);
    CountRecordsConcat(lines[..j] + [x], lines[j + 1..], sub);
    CountRecordsConcat(lines[..j], [x], sub);
  }

  /** Where the value of a declaring line ends: at a line terminator or the end (`(.*)$`). */
  function ValueEnd(line: string, k: nat): (e: nat)
    requires k <= |line|
    ensures k <= e <= |line| && (e < |line| ==> !IsValueChar(line[e]))
  {
    RunEnd(line, k, LineChars)
  }

  /** The value of the first record line of the file, if there is one. */
  function RecordValue(content: string, sub: string): Option<string> {
    var lines := Split(content, '\n');
    match FirstRecordLine(lines, sub, 0)
    case None => None
    case Some(j) =>
      var k := RecordPrefix(lines[j], sub).value;
      Some(lines[j][k..ValueEnd(lines[j], k)])
  }

  // -------------------------------------------------------------- create

  /** `n` spaces. */
  function Spaces(n: nat): string {
    seq(n, _ => ' ')
  }

  /** What `createDnsRecord` writes between the name and the address: four
      spaces, `IN`, six spaces, `A` and seven spaces. */
  function Layout(): string {
    Spaces(4) + "IN" + Spaces(6) + "A" + Spaces(7)
  }

  /** The line `createDnsRecord` writes for an `A` record. */
  function RecordLine(sub: string, ip: string): string {
    sub + Layout() + ip
  }

  /** `fs.appendFile(zoneFilePath, "\n" + line)`. */
  function AppendRecord(content: string, sub: string, ip: string): (r: string)
    ensures |r| > |content| && r[..|content|] == content
  {
    content + "\n" + RecordLine(sub, ip)
  }

  /** The record line declares the record, with the fixed layout as its prefix. */
  lemma RecordLineDeclares(sub: string, ip: string)
    requires |ip| > 0 && !IsWs(ip[0])
    ensures RecordPrefix(RecordLine(sub, ip), sub) == Some(|sub| + 20)
  {
    var line := RecordLine(sub, ip);
    var n := |sub|;
    var g := Layout();
    LayoutChars();
    assert forall j :: 0 <= j < 20 ==> line[n + j] == g[j];
    assert line[..n] == sub && line[n + 20] == ip[0];
    LayoutDeclares(line, sub);
  }

  /** Any line made of the name, the layout's characters and then a
      non-blank character declares the record. */
  lemma LayoutDeclares(line: string, sub: string)
    requires |sub| + 20 < |line| && line[..|sub|] == sub && !IsWs(line[|sub| + 20])
    requires line[|sub| + 4] == 'I' && line[|sub| + 5] == 'N' && line[|sub| + 12] == 'A'
    requires forall j :: |sub| <= j < |sub| + 20 && j != |sub| + 4 && j != |sub| + 5 && j != |sub| + 12 ==> line[j] == ' '
    ensures RecordPrefix(line, sub) == Some(|sub| + 20)
  {
    var n := |sub|;
    StartsWithCiOf(line, 0, sub);
    BlanksThenSkip(line, ["IN", "A"], n, n, n + 4);
    assert line[n + 4..n + 6] == "IN";
    StartsWithCiOf(line, n + 4, "IN");
    assert ["IN", "A"][1..] == ["A"];
    LayoutTail(line, n + 6);
  }

  /** The part of the layout after `IN`: six blanks, `A`, seven blanks. */
  lemma LayoutTail(line: string, a: nat)
    requires a + 14 < |line| && line[a + 6] == 'A' && !IsWs(line[a + 14])
    requires forall j :: a <= j < a + 14 && j != a + 6 ==> line[j] == ' '
    ensures BlanksThen(line, ["A"], a, a) == Some(a + 14)
  {
    BlanksThenSkip(line, ["A"], a, a, a + 6);
    assert line[a + 6..a + 7] == "A";
    StartsWithCiOf(line, a + 6, "A");
    assert ["A"][1..] == [];
    BlanksThenSkip(line, [], a + 7, a + 7, a + 14);
  }

  /** The layout character by character. */
  lemma LayoutChars()
    ensures var g := Layout();
      |g| == 20 && g[4] == 'I' && g[5] == 'N' && g[12] == 'A'
      && forall j :: 0 <= j < 20 && j != 4 && j != 5 && j != 12 ==> g[j] == ' '
  {
  }

  /** Appending a record adds exactly one line, after the old ones. */
  lemma AppendAddsLine(content: string, sub: string, ip: string)
    requires IsLiteralLabel(sub) && '\n' !in ip
    ensures Split(AppendRecord(content, sub, ip), '\n') == Split(content, '\n') + [RecordLine(sub, ip)]
  {
    var line := RecordLine(sub, ip);
    assert '\n' !in line by {
      forall i | 0 <= i < |line| ensures line[i] != '\n' {
        if i >= |sub| + 20 {
          assert line[i] == ip[i - |sub| - 20];
        }
      }
    }
    assert AppendRecord(content, sub, ip) == content + ['\n'] + line;
    SplitAppend(content, '\n', line);
  }

  /** After appending, the record is found, and one more line declares it. */
  lemma AppendThenFind(content: string, sub: string, ip: string)
    requires IsLiteralLabel(sub) && |ip| > 0 && !IsWs(ip[0]) && '\n' !in ip
    ensures HasRecord(AppendRecord(content, sub, ip), sub)
    ensures CountRecords(Split(AppendRecord(content, sub, ip), '\n'), sub)
         == CountRecords(Split(content, '\n'), sub) + 1
  {
    var line := RecordLine(sub, ip);
    var lines := Split(content, '\n');
    AppendAddsLine(content, sub, ip);
    RecordLineFound(sub, ip);
    var newLines := lines + [line];
    assert DeclaresRecord(Trim(newLines[|lines|]), sub);
    CountRecordsConcat(lines, [line], sub);
  }

  /** The written record line, trimmed as `findDnsRecord` trims it, still
      declares the record, and it counts once. */
  lemma RecordLineFound(sub: string, ip: string)
    requires IsLiteralLabel(sub) && |ip| > 0 && !IsWs(ip[0])
    ensures DeclaresRecord(Trim(RecordLine(sub, ip)), sub)
    ensures CountRecords([RecordLine(sub, ip)], sub) == 1
  {
    var line := RecordLine(sub, ip);
    RecordLineDeclares(sub, ip);
    var k := |sub| + 20;
    assert line[k] == ip[0];
    TrimKeepsPrefix(line, k);
    RecordPrefixStable(line, Trim(line), sub);
    assert [line][1..] == [];
  }

  /** A line that declares the record and has something after the matched
      prefix is also what `findDnsRecord` looks for: its trim declares the
      record too. */
  lemma DeclaredLineIsFound(content: string, sub: string, j: nat)
    requires IsLiteralLabel(sub)
    requires var lines := Split(content, '\n');
      j < |lines| && DeclaresRecord(lines[j], sub) && RecordPrefix(lines[j], sub).value < |lines[j]|
    ensures HasRecord(content, sub)
  {
    var line := Split(content, '\n')[j];
    var k := RecordPrefix(line, sub).value;
    assert !IsWs(line[0]) by {
      assert IsLabelChar(sub[0]) && LowerChar(line[0]) == LowerChar(sub[0]);
      LowerCharWs(line[0]);
    }
    TrimKeepsPrefix(line, k);
    RecordPrefixStable(line, Trim(line), sub);
  }

  // -------------------------------------------------------------- update

  /** The lines after `^(<sub>\s+IN\s+A\s+)(.*)$` is replaced by `$1<newIp>`:
      the first record line keeps its prefix and gets the new value. */
  function UpdateLines(lines: seq<string>, sub: string, newIp: string): (r: Option<seq<string>>)
    ensures r.None? <==> forall i :: 0 <= i < |lines| ==> !DeclaresRecord(lines[i], sub)
    ensures r.Some? ==> |r.value| == |lines|
  {
    match FirstRecordLine(lines, sub, 0)
    case None => None
    case Some(j) =>
      var line := lines[j];
      var k := RecordPrefix(line, sub).value;
      Some(lines[j := line[..k] + newIp + line[ValueEnd(line, k)..]])
  }

  /** `updateDnsRecord`'s edit of the file text; `None` when the record is not there. */
  function UpdateRecord(content: string, sub: string, newIp: string): (r: Option<string>)
    requires '$' !in newIp
    ensures r.None? <==> FirstRecordLine(Split(content, '\n'), sub, 0).None?
  {
    var lines := Split(content, '\n');
    match UpdateLines(lines, sub, newIp)
    case None => None
    case Some(edited) => Some(Join(edited, '\n'))
  }

  /** Update changes the value of the first record line and nothing else. */
  lemma UpdateChangesOneValue(content: string, sub: string, newIp: string)
    requires '$' !in newIp && '\n' !in newIp
    ensures var lines := Split(content, '\n');
      (UpdateRecord(content, sub, newIp).None? <==> FirstRecordLine(lines, sub, 0).None?)
      && (UpdateRecord(content, sub, newIp).Some? ==>
        var j := FirstRecordLine(lines, sub, 0).value;
        var k := RecordPrefix(lines[j], sub).value;
        var newLines := Split(UpdateRecord(content, sub, newIp).value, '\n');
        |newLines| == |lines|
        && (forall i :: 0 <= i < |lines| && i != j ==> newLines[i] == lines[i])
        && newLines[j] == lines[j][..k] + newIp + lines[j][ValueEnd(lines[j], k)..])
  {
    var lines := Split(content, '\n');
    match FirstRecordLine(lines, sub, 0)
    case None =>
    case Some(j) =>
      var newLines := UpdateLines(lines, sub, newIp).value;
      var line := lines[j];
      var k := RecordPrefix(line, sub).value;
      var x := line[..k] + newIp + line[ValueEnd(line, k)..];
      assert '\n' !in x by {
        assert forall c :: c in x ==> c in line[..k] || c in newIp || c in line[ValueEnd(line, k)..];
      }
      SplitJoin(newLines, '\n');
  }

  /** Reading the record back after an update gives the new value; the
      number of record lines is unchanged. */
  lemma UpdateThenRead(content: string, sub: string, newIp: string)
    requires '$' !in newIp && |newIp| > 0 && !IsWs(newIp[0])
    requires forall i :: 0 <= i < |newIp| ==> IsValueChar(newIp[i])
    requires UpdateRecord(content, sub, newIp).Some?
    ensures RecordValue(UpdateRecord(content, sub, newIp).value, sub) == Some(newIp)
    ensures CountRecords(Split(UpdateRecord(content, sub, newIp).value, '\n'), sub)
         == CountRecords(Split(content, '\n'), sub)
  {
    assert '\n' !in newIp by {
      forall i | 0 <= i < |newIp| ensures newIp[i] != '\n' {
        assert IsValueChar(newIp[i]);
      }
    }
    var lines := Split(content, '\n');
    UpdateChangesOneValue(content, sub, newIp);
    var j := FirstRecordLine(lines, sub, 0).value;
    var line := lines[j];
    var k := RecordPrefix(line, sub).value;
    var x := line[..k] + newIp + line[ValueEnd(line, k)..];
    var newLines := Split(UpdateRecord(content, sub, newIp).value, '\n');
    assert newLines == lines[j := x];
    ReplaceValue(line, sub, newIp);
    FirstRecordLineIs(newLines, sub, j);
    CountRecordsReplace(lines, j, x, sub);
    CountOne(line, sub);
    CountOne(x, sub);
  }

  /** A single line counts one exactly when it declares the record. */
  lemma CountOne(line: string, sub: string)
    ensures CountRecords([line], sub) == if DeclaresRecord(line, sub) then 1 else 0
  {
    assert [line][1..] == [];
  }

  /** Putting a new value after the prefix of a declaring line keeps the
      prefix and makes the new value the line's value. */
  lemma ReplaceValue(line: string, sub: string, v: string)
    requires DeclaresRecord(line, sub) && |v| > 0 && !IsWs(v[0])
    requires forall i :: 0 <= i < |v| ==> IsValueChar(v[i])
    ensures var k := RecordPrefix(line, sub).value;
      var x := line[..k] + v + line[ValueEnd(line, k)..];
      RecordPrefix(x, sub) == Some(k) && ValueEnd(x, k) == k + |v| && x[k..k + |v|] == v
  {
    var k := RecordPrefix(line, sub).value;
    var rest := line[ValueEnd(line, k)..];
    var x := line[..k] + v + rest;
    Pieces(line[..k], v, rest);
    assert x[..k] == line[..k] && x[k] == v[0];
    RecordPrefixStable(line, x, sub);
    forall i | k <= i < k + |v| ensures IsValueChar(x[i]) {
      assert x[i] == x[k..k + |v|][i - k];
    }
    if |rest| > 0 {
      assert x[k + |v|] == rest[0];
    }
    RunEndIs(x, k, k + |v|, LineChars);
  }

  lemma FirstRecordLineIs(lines: seq<string>, sub: string, j: nat)
    requires j < |lines| && DeclaresRecord(lines[j], sub)
    requires forall i :: 0 <= i < j ==> !DeclaresRecord(lines[i], sub)
    ensures FirstRecordLine(lines, sub, 0) == Some(j)
  {
  }

  // -------------------------------------------------------------- delete

  /** The lines after `^<sub>\s+IN\s+A\s+.*\n?` is removed: the first record
      line goes, together with the newline after it. What follows a line
      terminator other than `\n` inside that line stays. */
  function DeleteLines(lines: seq<string>, sub: string): (r: Option<seq<string>>)
    ensures r.None? <==> forall i :: 0 <= i < |lines| ==> !DeclaresRecord(lines[i], sub)
    ensures r.Some? ==> |r.value| >= 1
  {
    match FirstRecordLine(lines, sub, 0)
    case None => None
    case Some(j) =>
      var line := lines[j];
      var rest := line[ValueEnd(line, RecordPrefix(line, sub).value)..];
      if rest == [] && j + 1 < |lines| then Some(lines[..j] + lines[j + 1..])
      else Some(lines[j := rest])
  }

  /** `deleteDnsRecord`'s edit of the file text; `None` when the record is not there. */
  function DeleteRecord(content: string, sub: string): (r: Option<string>)
    ensures r.None? <==> FirstRecordLine(Split(content, '\n'), sub, 0).None?
  {
    var lines := Split(content, '\n');
    match DeleteLines(lines, sub)
    case None => None
    case Some(edited) => Some(Join(edited, '\n'))
  }

  /** Delete removes exactly the first record line's match: the whole line
      and its newline when nothing is left of it and a line follows, otherwise
      the line becomes what followed its value. The lines before and after it
      are kept, and one record line fewer remains. */
  lemma DeleteRemovesOneLine(content: string, sub: string)
    requires IsLiteralLabel(sub)
    ensures var lines := Split(content, '\n');
      (DeleteRecord(content, sub).None? <==> FirstRecordLine(lines, sub, 0).None?)
      && (DeleteRecord(content, sub).Some? ==>
        var j := FirstRecordLine(lines, sub, 0).value;
        var rest := lines[j][ValueEnd(lines[j], RecordPrefix(lines[j], sub).value)..];
        var newLines := Split(DeleteRecord(content, sub).value, '\n');
        (|newLines| == |lines| || |newLines| == |lines| - 1)
        && (|newLines| == |lines| - 1 <==> rest == [] && j + 1 < |lines|)
        && (|newLines| == |lines| ==> newLines[j] == rest)
        && newLines[..j] == lines[..j]
        && newLines[|newLines| - (|lines| - j - 1)..] == lines[j + 1..]
        && CountRecords(newLines, sub) == CountRecords(lines, sub) - 1)
  {
    var lines := Split(content, '\n');
    if DeleteLines(lines, sub).Some? {
      var newLines := DeleteLines(lines, sub).value;
      DeleteLinesEffect(lines, sub);
      SplitJoin(newLines, '\n');
    }
  }

  /** The line-level effect of delete. */
  lemma DeleteLinesEffect(lines: seq<string>, sub: string)
    requires IsLiteralLabel(sub) && DeleteLines(lines, sub).Some?
    requires forall i :: 0 <= i < |lines| ==> '\n' !in lines[i]
    ensures var j := FirstRecordLine(lines, sub, 0).value;
      var rest := lines[j][ValueEnd(lines[j], RecordPrefix(lines[j], sub).value)..];
      var newLines := DeleteLines(lines, sub).value;
      (forall i :: 0 <= i < |newLines| ==> '\n' !in newLines[i])
      && (|newLines| == |lines| || |newLines| == |lines| - 1)
      && (|newLines| == |lines| - 1 <==> rest == [] && j + 1 < |lines|)
      && (|newLines| == |lines| ==> newLines[j] == rest)
      && newLines[..j] == lines[..j]
      && newLines[|newLines| - (|lines| - j - 1)..] == lines[j + 1..]
      && CountRecords(newLines, sub) == CountRecords(lines, sub) - 1
  {
    var j := FirstRecordLine(lines, sub, 0).value;
    var line := lines[j];
    var rest := line[ValueEnd(line, RecordPrefix(line, sub).value)..];
    RestNotDeclares(rest, sub);
    CountOne(line, sub);
    CountOne(rest, sub);
    if rest == [] && j + 1 < |lines| {
      CountRecordsRemove(lines, j, sub);
      var nl := lines[..j] + lines[j + 1..];
      assert nl[..j] == lines[..j] && nl[j..] == lines[j + 1..];
      forall i | 0 <= i < |nl| ensures '\n' !in nl[i] {
        assert nl[i] == if i < j then lines[i] else lines[i + 1];
      }
    } else {
      CountRecordsReplace(lines, j, rest, sub);
      assert lines[j := rest][..j] == lines[..j];
      assert lines[j := rest][j + 1..] == lines[j + 1..];
      assert '\n' !in rest by {
        NotInSuffix(line, ValueEnd(line, RecordPrefix(line, sub).value), '\n');
      }
    }
  }

  lemma NotInSuffix(s: string, i: nat, c: char)
    requires i <= |s| && c !in s
    ensures c !in s[i..]
  {
  }

  /** What is left of a record line after its value never declares the record:
      it is empty or starts with a line terminator. */
  lemma RestNotDeclares(rest: string, sub: string)
    requires IsLiteralLabel(sub) && (|rest| > 0 ==> !IsValueChar(rest[0]))
    ensures !DeclaresRecord(rest, sub)
  {
    assert IsLabelChar(sub[0]);
  }

  /** Removing one line changes the count by that line alone. */
  lemma CountRecordsRemove(lines: seq<string>, j: nat, sub: string)
    requires j < |lines|
    ensures CountRecords(lines[..j] + lines[j + 1..], sub) + CountRecords([lines[j]], sub)
         == CountRecords(lines, sub)
  {
    assert lines == lines[..j] + [lines[j]] + lines[j + 1..];
    CountRecordsConcat(lines[..j] + [lines[j]], lines[j + 1..], sub);
    CountRecordsConcat(lines[..j], [lines[j]], sub);
    CountRecordsConcat(lines[..j], lines[j + 1..], sub);
  }

  // ------------------------------------------------- edits keep the stamp

  /** Where line `j` starts in the text the lines are joined into. */
  function LineStart(lines: seq<string>, j: nat): (r: nat)
    requires 0 < j < |lines|
    ensures 0 < r <= |Join(lines, '\n')|
  {
    JoinAt(lines, '\n', j);
    |Join(lines[..j], '\n')| + 1
  }

  /** Two line lists with the same first `j` lines join into texts that agree
      up to where line `j` starts. */
  lemma JoinKeepsLinesBefore(lines: seq<string>, newLines: seq<string>, j: nat)
    requires 0 < j < |lines| && j < |newLines| && newLines[..j] == lines[..j]
    ensures var p := LineStart(lines, j);
      p <= |Join(newLines, '\n')| && Join(newLines, '\n')[..p] == Join(lines, '\n')[..p]
  {
    JoinAt(lines, '\n', j);
    JoinAt(newLines, '\n', j);
    var a := Join(lines[..j], '\n') + ['\n'];
    assert Join(lines, '\n')[..|a|] == a;
    assert Join(newLines, '\n')[..|a|] == a;
  }

  /** An edit that keeps the text up to a point past the stamp keeps the stamp. */
  lemma SerialKeptBefore(s: string, t: string, p: nat)
    requires FindSerial(s).Some? && FindSerial(s).value.end <= p <= |s|
    requires p <= |t| && t[..p] == s[..p]
    ensures FindSerial(t) == FindSerial(s) && SerialOf(t) == SerialOf(s)
  {
    var m := FindSerial(s).value;
    assert t[..m.end] == s[..m.end] by {
      assert t[..m.end] == t[..p][..m.end] && s[..m.end] == s[..p][..m.end];
    }
    FirstSerialStable(s, t);
    SerialOfIs(s, m);
    SerialOfIs(t, m);
    assert t[m.start..m.digitsEnd] == s[m.start..m.digitsEnd] by {
      assert t[m.start..m.digitsEnd] == t[..m.end][m.start..m.digitsEnd];
      assert s[m.start..m.digitsEnd] == s[..m.end][m.start..m.digitsEnd];
    }
  }

  /** Update keeps the version stamp when the stamp ends before the record
      line starts: the serial the service then bumps is the old file's. */
  lemma UpdateKeepsSerial(content: string, sub: string, newIp: string)
    requires '$' !in newIp
    requires UpdateRecord(content, sub, newIp).Some? && FindSerial(content).Some?
    requires var lines := Split(content, '\n'); var j := FirstRecordLine(lines, sub, 0).value;
      j > 0 && FindSerial(content).value.end <= LineStart(lines, j)
    ensures FindSerial(UpdateRecord(content, sub, newIp).value) == FindSerial(content)
    ensures SerialOf(UpdateRecord(content, sub, newIp).value) == SerialOf(content)
  {
    var lines := Split(content, '\n');
    var j := FirstRecordLine(lines, sub, 0).value;
    var newLines := UpdateLines(lines, sub, newIp).value;
    assert newLines[..j] == lines[..j];
    JoinSplit(content, '\n');
    JoinKeepsLinesBefore(lines, newLines, j);
    SerialKeptBefore(content, UpdateRecord(content, sub, newIp).value, LineStart(lines, j));
  }

  /** Delete keeps the version stamp when the stamp ends before the record
      line starts. */
  lemma DeleteKeepsSerial(content: string, sub: string)
    requires IsLiteralLabel(sub)
    requires DeleteRecord(content, sub).Some? && FindSerial(content).Some?
    requires var lines := Split(content, '\n'); var j := FirstRecordLine(lines, sub, 0).value;
      j > 0 && FindSerial(content).value.end <= LineStart(lines, j)
    ensures FindSerial(DeleteRecord(content, sub).value) == FindSerial(content)
    ensures SerialOf(DeleteRecord(content, sub).value) == SerialOf(content)
  {
    var lines := Split(content, '\n');
    var j := FirstRecordLine(lines, sub, 0).value;
    var newLines := DeleteLines(lines, sub).value;
    DeleteLinesEffect(lines, sub);
    JoinSplit(content, '\n');
    JoinKeepsLinesBefore(lines, newLines, j);
    SerialKeptBefore(content, DeleteRecord(content, sub).value, LineStart(lines, j));
  }

  // --------------------------------------------------------------- tally

  /** The match of `IN\s+A` (case-sensitive) starting at `k`: its end. */
  function InAAt(s: string, k: nat): (r: Option<nat>)
    requires k <= |s|
    ensures r.Some? ==> k + 3 < r.value + 1 <= |s| + 1 && s[r.value - 1] == 'A'
  {
    if k + 2 <= |s| && s[k..k + 2] == "IN" then BlanksA(s, k + 2, k + 2) else None
  }

  /** `\s+A` scanned at `j` inside a white-space run that started at `a`: the end of the `A`. */
  function BlanksA(s: string, a: nat, j: nat): (r: Option<nat>)
    requires a <= j <= |s|
    ensures r.Some? ==> a + 1 < r.value <= |s| && s[r.value - 1] == 'A'
    decreases |s| - j
  {
    if j < |s| && IsWs(s[j]) then BlanksA(s, a, j + 1)
    else if j > a && j < |s| && s[j] == 'A' then Some(j + 1)
    else None
  }

  /** `(data.match(/IN\s+A/g) || []).length` counted from `k`: each search
      resumes where the previous match ended. */
  function CountInAFrom(s: string, k: nat): (r: nat)
    requires k <= |s|
    ensures 4 * r <= |s| - k
    decreases |s| - k
  {
    if k == |s| then 0
    else match InAAt(s, k)
      case Some(e) => 1 + CountInAFrom(s, e)
      case None => CountInAFrom(s, k + 1)
  }

  /** Every occurrence takes at least four characters of the zone file. */
  function CountInA(s: string): (r: nat)
    ensures 4 * r <= |s|
  {
    CountInAFrom(s, 0)
  }

  /** Every `IN\s+A` occurrence counts, whatever follows the `A`: the pattern
      has no word boundary, so `IN AAAA` lines are counted too. */
  lemma CountInAIncludesAAAA(s: string, k: nat)
    requires k + 4 <= |s| && s[k..k + 4] == "IN A"
    ensures InAAt(s, k) == Some(k + 4)
    ensures CountInAFrom(s, k) == 1 + CountInAFrom(s, k + 4)
  {
    assert s[k..k + 2] == s[k..k + 4][..2] == "IN";
    assert s[k + 2] == s[k..k + 4][2] && s[k + 3] == s[k..k + 4][3];
    assert BlanksA(s, k + 2, k + 3) == Some(k + 4);
  }

  /** A match of `IN\s+A` at `k` is exactly `IN`, a non-empty white-space run
      and `A`, ending just after the `A`. */
  lemma InAAtIs(s: string, k: nat, e: nat)
    requires k <= |s|
    ensures InAAt(s, k) == Some(e) <==>
      (k + 3 < e <= |s| && s[k..k + 2] == "IN" && s[e - 1] == 'A'
       && forall i :: k + 2 <= i < e - 1 ==> IsWs(s[i]))
  {
    if k + 2 <= |s| {
      BlanksAIs(s, k + 2, k + 2, e);
    }
  }

  /** `\s+A` scanned from `j` inside a run that started at `a` ends at `e`
      exactly when `[a, e - 1)` is a non-empty white-space run and `A` is at `e - 1`. */
  lemma {:induction false} BlanksAIs(s: string, a: nat, j: nat, e: nat)
    requires a <= j <= |s| && forall i :: a <= i < j ==> IsWs(s[i])
    ensures BlanksA(s, a, j) == Some(e) <==>
      (a + 1 < e <= |s| && s[e - 1] == 'A' && forall i :: a <= i < e - 1 ==> IsWs(s[i]))
    decreases |s| - j
  {
    assert !IsWs('A');
    if j < |s| && IsWs(s[j]) {
      BlanksAIs(s, a, j + 1, e);
    }
  }

  /** A zone's share of the tally: its `IN A` count beyond the four base records. */
  function Surplus(count: nat): (r: nat)
    ensures r == 0 <==> count <= 4
    ensures r > 0 ==> r + 4 == count
  {
    if count > 4 then count - 4 else 0
  }
}
