/**
  The `int(data.get('rank'))` step of the prediction endpoint: Python's `int()`
  applied to whatever the decoded JSON body holds under "rank". It either yields
  an integer or raises, and a raise turns into the endpoint's failure response.

  The text subset is Python's base-10 grammar restricted to ASCII digits:
  surrounding white space (the six ASCII white-space characters and Unicode's
  non-ASCII white space, but not the ASCII separators U+001C to U+001F) is
  stripped, then an optional `+` or `-`, then one or more digits in which single
  underscores may separate two digits. Leading zeros are accepted
  (`ParseIntLeadingZeros`), a single underscore between digits is accepted and
  changes nothing (`ParseIntUnderscore`), and an underscore at either end or two
  in a row make the text refused (`ParseIntRejectsStrayUnderscore`).
*/
module RankCoercion {
  import opened Wrappers
  import opened SeqFacts

  /** What `data.get('rank')` can return: `None` (key missing or JSON null), a
      boolean, an integer, a string, or a list or object (which `int()` rejects). */
  datatype RankValue = Absent | Boolean(b: bool) | Integer(i: int) | Text(s: string) | Compound

  /** `int(v)`: `None` and containers raise `TypeError`, `bool` is 0 or 1,
      `int` is itself, and a string is parsed. */
  function CoerceRank(v: RankValue): (r: Option<int>)
    ensures v.Absent? || v.Compound? ==> r == None
    ensures v.Boolean? ==> r == Some(if v.b then 1 else 0)
    ensures v.Integer? ==> r == Some(v.i)
    ensures v.Text? && r.Some? ==> forall k :: 0 <= k < |v.s| ==> !Foreign(v.s[k])
  {
    match v
    case Absent => None
    case Boolean(b) => Some(if b then 1 else 0)
    case Integer(i) => Some(i)
    case Text(s) => ParseInt(s)
    case Compound => None
  }

  /** The characters `int()` strips from both ends of its text. It copies ASCII
      unchanged and strips only the space and `\t`, `\n`, `\v`, `\f`, `\r` among
      ASCII characters (so not U+001C to U+001F); a non-ASCII character that
      `str.isspace` accepts becomes a space first and is stripped too. */
  predicate IsSpace(c: char) {
    || c == ' '
    || '\t' <= c <= '\r'
    || c == '\U{85}' || c == '\U{A0}' || c == '\U{1680}'
    || '\U{2000}' <= c <= '\U{200A}'
    || c == '\U{2028}' || c == '\U{2029}' || c == '\U{202F}' || c == '\U{205F}' || c == '\U{3000}'
  }

  predicate AllSpace(s: string) {
    forall k :: 0 <= k < |s| ==> IsSpace(s[k])
  }

  predicate IsDigit(c: char) {
    '0' <= c <= '9'
  }

  function DigitValue(c: char): (d: nat)
    requires IsDigit(c)
    ensures d < 10
  {
    c as int - '0' as int
  }

  function DigitChar(d: nat): (c: char)
    requires d < 10
    ensures IsDigit(c) && DigitValue(c) == d
  {
    ('0' as int + d) as char
  }

  /** Drops the leading white space: what is left is a suffix that starts with a non-space. */
  function TrimStart(s: string): (r: string)
    ensures |r| <= |s| && r == s[|s| - |r|..]
    ensures forall k :: 0 <= k < |s| - |r| ==> IsSpace(s[k])
    ensures r == [] || !IsSpace(r[0])
  {
    if s != [] && IsSpace(s[0]) then
      var r := TrimStart(s[1..]);
      assert s[1..][|s| - 1 - |r|..] == s[|s| - |r|..];
      assert forall k :: 1 <= k < |s| - |r| ==> s[k] == s[1..][k - 1];
      r
    else s
  }

  /** Drops the trailing white space: what is left is a prefix that ends with a non-space. */
  function TrimEnd(s: string): (r: string)
    ensures |r| <= |s| && r == s[..|r|]
    ensures forall k :: |r| <= k < |s| ==> IsSpace(s[k])
    ensures r == [] || !IsSpace(r[|r| - 1])
  {
    if s != [] && IsSpace(s[|s| - 1]) then
      var init := s[..|s| - 1];
      var r := TrimEnd(init);
      assert init[..|r|] == s[..|r|];
      r
    else s
  }

  function Strip(s: string): string {
    TrimEnd(TrimStart(s))
  }

  predicate DigitsOrUnderscores(s: string) {
    forall k :: 0 <= k < |s| ==> IsDigit(s[k]) || s[k] == '_'
  }

  /** One or more digits, with single underscores allowed between two digits. */
  predicate WellFormedDigits(s: string) {
    && |s| > 0
    && DigitsOrUnderscores(s)
    && IsDigit(s[0]) && IsDigit(s[|s| - 1])
    && NoDoubleUnderscore(s)
  }

  predicate NoDoubleUnderscore(s: string) {
    |s| < 2 || (!(s[0] == '_' && s[1] == '_') && NoDoubleUnderscore(s[1..]))
  }

  /** The number the digits spell, underscores being ignored. */
  function DigitsValue(s: string): nat
    requires DigitsOrUnderscores(s)
  {
    if s == [] then 0
    else if s[|s| - 1] == '_' then DigitsValue(s[..|s| - 1])
    else DigitsValue(s[..|s| - 1]) * 10 + DigitValue(s[|s| - 1])
  }

  /** `int(s)` for a string: `None` where Python raises `ValueError`. Text it accepts
      holds nothing but digits, signs, underscores and white space. */
  function ParseInt(s: string): (r: Option<int>)
    ensures r.Some? ==> forall k :: 0 <= k < |s| ==> !Foreign(s[k])
  {
    StripRejectsForeign(s);
    ParseSigned(Strip(s))
  }

  /** An optional sign followed by well-formed digits. */
  function ParseSigned(t: string): Option<int> {
    if |t| > 0 && (t[0] == '+' || t[0] == '-') then
      if WellFormedDigits(t[1..]) then
        var n: int := DigitsValue(t[1..]);
        Some(if t[0] == '-' then -n else n)
      else None
    else if WellFormedDigits(t) then Some(DigitsValue(t))
    else None
  }

  /** The decimal spelling of an integer, as Python's `str()` writes it. */
  function ShowNat(n: nat): (r: string)
    ensures |r| > 0 && forall k :: 0 <= k < |r| ==> IsDigit(r[k])
  {
    if n < 10 then [DigitChar(n)] else ShowNat(n / 10) + [DigitChar(n % 10)]
  }

  function ShowInt(i: int): string {
    if i < 0 then "-" + ShowNat(-i) else ShowNat(i)
  }

  lemma {:induction false} ShowNatValue(n: nat)
    ensures DigitsOrUnderscores(ShowNat(n)) && DigitsValue(ShowNat(n)) == n
  {
    var s := ShowNat(n);
    if n >= 10 {
      ShowNatValue(n / 10);
      assert s[..|s| - 1] == ShowNat(n / 10);
    } else {
      assert s[..|s| - 1] == [];
    }
  }

  lemma {:induction false} AllDigitsWellFormed(s: string)
    requires |s| > 0 && forall k :: 0 <= k < |s| ==> IsDigit(s[k])
    ensures WellFormedDigits(s)
  {
    if |s| >= 2 {
      AllDigitsWellFormed(s[1..]);
    }
  }

  /** A string that neither starts nor ends with white space is its own strip. */
  lemma StripUnpadded(s: string)
    requires s != [] && !IsSpace(s[0]) && !IsSpace(s[|s| - 1])
    ensures Strip(s) == s
  {
    assert TrimStart(s) == s;
  }

  lemma ParseSignedNat(n: nat)
    ensures ParseSigned(ShowNat(n)) == Some(n)
  {
    ShowNatValue(n);
    AllDigitsWellFormed(ShowNat(n));
  }

  lemma ParseSignedNegative(n: nat)
    requires n > 0
    ensures ParseSigned("-" + ShowNat(n)) == Some(0 - n)
  {
    var t := "-" + ShowNat(n);
    assert t[0] == '-' && t[1..] == ShowNat(n);
    ShowNatValue(n);
    AllDigitsWellFormed(ShowNat(n));
  }

  /** `int(str(i)) == i`: the parser reads back every integer's decimal spelling. */
  lemma ParseIntRoundTrip(i: int)
    ensures ParseInt(ShowInt(i)) == Some(i)
    ensures CoerceRank(Text(ShowInt(i))) == Some(i)
  {
    var s := ShowInt(i);
    if i < 0 {
      var digits := ShowNat(-i);
      assert s == "-" + digits;
      assert s[|s| - 1] == digits[|digits| - 1];
      StripUnpadded(s);
      ParseSignedNegative(-i);
    } else {
      StripUnpadded(s);
      ParseSignedNat(i);
    }
  }

  lemma {:induction false} TrimStartPadded(ws: string, s: string)
    requires AllSpace(ws)
    ensures TrimStart(ws + s) == TrimStart(s)
  {
    if ws != [] {
      assert (ws + s)[1..] == ws[1..] + s;
      TrimStartPadded(ws[1..], s);
    } else {
      assert ws + s == s;
    }
  }

  lemma {:induction false} TrimEndPadded(s: string, ws: string)
    requires AllSpace(ws)
    ensures TrimEnd(s + ws) == TrimEnd(s)
  {
    if ws != [] {
      var last := |s + ws| - 1;
      assert (s + ws)[..last] == s + ws[..|ws| - 1];
      TrimEndPadded(s, ws[..|ws| - 1]);
    } else {
      assert s + ws == s;
    }
  }

  lemma TrimStartUnpadded(s: string)
    requires s == [] || !IsSpace(s[0])
    ensures TrimStart(s) == s
  {
  }

  /** In a string that has non-space content, trailing white space does not reach the start. */
  lemma TrimStartThenPad(s: string, ws: string)
    requires AllSpace(ws)
    ensures TrimStart(s) == [] ==> TrimStart(s + ws) == []
    ensures TrimStart(s) != [] ==> TrimStart(s + ws) == TrimStart(s) + ws
  {
    var t := TrimStart(s);
    var p := s[..|s| - |t|];
    SplitPrefix(s, |s| - |t|);
    AppendAssoc(p, t, ws);
    TrimStartPadded(p, t + ws);
    if t == [] {
      AppendEmpty(ws);
      TrimStartPadded(ws, []);
    } else {
      assert (t + ws)[0] == t[0];
      TrimStartUnpadded(t + ws);
    }
  }

  lemma StripPadded(left: string, s: string, right: string)
    requires AllSpace(left) && AllSpace(right)
    ensures Strip(left + s + right) == Strip(s)
  {
    assert left + s + right == left + (s + right);
    TrimStartPadded(left, s + right);
    TrimStartThenPad(s, right);
    var t := TrimStart(s);
    if t == [] {
      assert Strip(left + s + right) == [] == Strip(s);
    } else {
      TrimEndPadded(t, right);
    }
  }

  /** `int()` ignores white space around the number: padding never changes the outcome. */
  lemma ParseIntIgnoresPadding(left: string, s: string, right: string)
    requires AllSpace(left) && AllSpace(right)
    ensures ParseInt(left + s + right) == ParseInt(s)
  {
    StripPadded(left, s, right);
  }

  lemma TrimStartKeeps(s: string, k: nat) returns (m: nat)
    requires k < |s| && !IsSpace(s[k])
    ensures m < |TrimStart(s)| && TrimStart(s)[m] == s[k]
    ensures m == k - (|s| - |TrimStart(s)|)
  {
    m := k - (|s| - |TrimStart(s)|);
  }

  lemma TrimEndKeeps(s: string, k: nat)
    requires k < |s| && !IsSpace(s[k])
    ensures k < |TrimEnd(s)| && TrimEnd(s)[k] == s[k]
  {
  }

  /** Stripping keeps every character that is not white space. */
  lemma StripKeeps(s: string, k: nat) returns (m: nat)
    requires k < |s| && !IsSpace(s[k])
    ensures m < |Strip(s)| && Strip(s)[m] == s[k]
    ensures m == k - (|s| - |TrimStart(s)|)
  {
    m := TrimStartKeeps(s, k);
    TrimEndKeeps(TrimStart(s), m);
  }

  predicate Foreign(c: char) {
    !IsDigit(c) && !IsSpace(c) && c !in "+-_"
  }

  lemma ParseSignedRejects(t: string, m: nat)
    requires m < |t| && Foreign(t[m])
    ensures ParseSigned(t) == None
  {
    if |t| > 0 && (t[0] == '+' || t[0] == '-') {
      assert t[1..][m - 1] == t[m];
    }
  }

  /** Stripping and parsing the sign and digits fails on text with a foreign character. */
  lemma StripRejectsForeign(s: string)
    ensures (exists k :: 0 <= k < |s| && Foreign(s[k])) ==> ParseSigned(Strip(s)) == None
  {
    if k :| 0 <= k < |s| && Foreign(s[k]) {
      var m := StripKeeps(s, k);
      ParseSignedRejects(Strip(s), m);
    }
  }

  /** A character that is neither a digit, a sign, an underscore nor white space makes `int()` raise. */
  lemma ParseIntRejectsForeign(s: string, k: nat)
    requires k < |s| && Foreign(s[k])
    ensures ParseInt(s) == None
  {
    StripRejectsForeign(s);
  }

  /** A missing rank, a container, empty text and text that is not a number are refused. */
  lemma RejectedRanks()
    ensures CoerceRank(Absent) == None && CoerceRank(Compound) == None
    ensures CoerceRank(Text("")) == None && CoerceRank(Text("abc")) == None
  {
    ParseIntRejectsForeign("abc", 0);
  }

  /** The ASCII separators U+001C to U+001F are not white space to `int()`: a number
      after one is refused. */
  lemma SeparatorIsNotStripped()
    ensures CoerceRank(Text("\U{1C}600")) == None && CoerceRank(Text("600\U{1F}")) == None
  {
    ParseIntRejectsForeign("\U{1C}600", 0);
    ParseIntRejectsForeign("600\U{1F}", 3);
  }

  /** A leading zero adds nothing to the value. */
  lemma {:induction false} DigitsValueLeadingZero(s: string)
    requires DigitsOrUnderscores(s)
    ensures DigitsOrUnderscores("0" + s) && DigitsValue("0" + s) == DigitsValue(s)
  {
    var t := "0" + s;
    if s == [] {
      assert t[..|t| - 1] == [];
    } else {
      assert t[..|t| - 1] == "0" + s[..|s| - 1];
      DigitsValueLeadingZero(s[..|s| - 1]);
    }
  }

  lemma {:induction false} DigitsValueLeadingZeros(zeros: string, s: string)
    requires forall k :: 0 <= k < |zeros| ==> zeros[k] == '0'
    requires DigitsOrUnderscores(s)
    ensures DigitsOrUnderscores(zeros + s) && DigitsValue(zeros + s) == DigitsValue(s)
  {
    if zeros != [] {
      DigitsValueLeadingZeros(zeros[1..], s);
      assert zeros + s == "0" + (zeros[1..] + s);
      DigitsValueLeadingZero(zeros[1..] + s);
    } else {
      assert zeros + s == s;
    }
  }

  /** Text that is its own strip parses as its sign and digits say. */
  lemma ParseIntUnpadded(t: string)
    requires t != [] && !IsSpace(t[0]) && !IsSpace(t[|t| - 1])
    ensures ParseInt(t) == ParseSigned(t)
  {
    StripUnpadded(t);
  }

  /** Well-formed digits parse to their value. */
  lemma ParseIntWellFormed(d: string)
    requires WellFormedDigits(d)
    ensures ParseInt(d) == Some(DigitsValue(d))
  {
    assert d[0] != '+' && d[0] != '-';
    assert ParseSigned(d) == Some(DigitsValue(d));
    ParseIntUnpadded(d);
  }

  /** So do well-formed digits after a `+`. */
  lemma ParseIntPlusWellFormed(d: string)
    requires WellFormedDigits(d)
    ensures ParseInt("+" + d) == Some(DigitsValue(d))
  {
    var t := "+" + d;
    assert t[0] == '+' && t[1..] == d && t[|t| - 1] == d[|d| - 1];
    ParseIntUnpadded(t);
  }

  /** `int()` accepts an explicit `+` and any number of leading zeros. */
  lemma ParseIntLeadingZeros(zeros: string, n: nat)
    requires forall k :: 0 <= k < |zeros| ==> zeros[k] == '0'
    ensures ParseInt(zeros + ShowNat(n)) == Some(n)
    ensures ParseInt("+" + zeros + ShowNat(n)) == Some(n)
  {
    var d := zeros + ShowNat(n);
    ShowNatValue(n);
    DigitsValueLeadingZeros(zeros, ShowNat(n));
    assert forall k :: 0 <= k < |d| ==> IsDigit(d[k]) by {
      assert forall k :: |zeros| <= k < |d| ==> d[k] == ShowNat(n)[k - |zeros|];
    }
    AllDigitsWellFormed(d);
    ParseIntWellFormed(d);
    assert "+" + zeros + ShowNat(n) == "+" + d;
    ParseIntPlusWellFormed(d);
  }

  /** An underscore between two runs of digits leaves the value unchanged. */
  lemma {:induction false} DigitsValueUnderscore(p: string, q: string)
    requires DigitsOrUnderscores(p) && DigitsOrUnderscores(q)
    ensures DigitsOrUnderscores(p + "_" + q) && DigitsOrUnderscores(p + q)
    ensures DigitsValue(p + "_" + q) == DigitsValue(p + q)
  {
    var s, t := p + "_" + q, p + q;
    if q == [] {
      assert s[..|s| - 1] == p && t == p;
    } else {
      var q' := q[..|q| - 1];
      assert s[..|s| - 1] == p + "_" + q' && s[|s| - 1] == q[|q| - 1];
      assert t[..|t| - 1] == p + q' && t[|t| - 1] == q[|q| - 1];
      DigitsValueUnderscore(p, q');
    }
  }

  /** `NoDoubleUnderscore` holds exactly when no two adjacent characters are both `_`. */
  lemma {:induction false} NoDoubleUnderscoreAt(s: string)
    ensures NoDoubleUnderscore(s) <==>
      forall i :: 0 <= i < |s| - 1 ==> !(s[i] == '_' && s[i + 1] == '_')
  {
    if |s| >= 2 {
      NoDoubleUnderscoreAt(s[1..]);
      assert forall i :: 1 <= i < |s| - 1 ==> s[i] == s[1..][i - 1] && s[i + 1] == s[1..][i];
    }
  }

  /** `int()` accepts a single underscore between two digits, and it does not change
      the number: `int("1_000") == int("1000")`. */
  lemma ParseIntUnderscore(p: string, q: string)
    requires |p| > 0 && forall k :: 0 <= k < |p| ==> IsDigit(p[k])
    requires |q| > 0 && forall k :: 0 <= k < |q| ==> IsDigit(q[k])
    ensures ParseInt(p + "_" + q) == ParseInt(p + q) == Some(DigitsValue(p + q))
  {
    DigitsValueUnderscore(p, q);
    var t := p + q;
    assert forall k :: 0 <= k < |t| ==> IsDigit(t[k]) by {
      assert forall k :: |p| <= k < |t| ==> t[k] == q[k - |p|];
    }
    AllDigitsWellFormed(t);
    ParseIntWellFormed(t);
    UnderscoreWellFormed(p, q);
    ParseIntWellFormed(p + "_" + q);
  }

  lemma UnderscoreWellFormed(p: string, q: string)
    requires |p| > 0 && forall k :: 0 <= k < |p| ==> IsDigit(p[k])
    requires |q| > 0 && forall k :: 0 <= k < |q| ==> IsDigit(q[k])
    ensures WellFormedDigits(p + "_" + q)
  {
    var s := p + "_" + q;
    assert s[0] == p[0] && s[|s| - 1] == q[|q| - 1];
    NoDoubleUnderscoreAt(s);
    forall i | 0 <= i < |s| - 1
      ensures !(s[i] == '_' && s[i + 1] == '_')
    {
      if i < |p| {
        assert s[i] == p[i];
      } else {
        assert s[i + 1] == q[i + 1 - |p| - 1];
      }
    }
  }

  /** Text that ends with a non-digit is refused after any sign. */
  lemma ParseSignedRejectsLast(t: string)
    requires |t| > 0 && !IsDigit(t[|t| - 1])
    ensures ParseSigned(t) == None
  {
    if |t| > 0 && (t[0] == '+' || t[0] == '-') && |t[1..]| > 0 {
      assert t[1..][|t[1..]| - 1] == t[|t| - 1];
    }
  }

  lemma LeadingUnderscoreRefused(q: string)
    ensures ParseInt("_" + q) == None
  {
    var m := StripKeeps("_" + q, 0);
    var t := Strip("_" + q);
    assert m == 0 && t[0] == '_';
    assert ParseSigned(t) == None;
  }

  lemma TrailingUnderscoreRefused(p: string)
    ensures ParseInt(p + "_") == None
  {
    var b := p + "_";
    var m := StripKeeps(b, |p|);
    assert m == |Strip(b)| - 1;
    ParseSignedRejectsLast(Strip(b));
  }

  lemma DoubleUnderscoreRefused(p: string, q: string)
    ensures ParseInt(p + "__" + q) == None
  {
    var c := p + "__" + q;
    var t := Strip(c);
    var m1 := StripKeeps(c, |p|);
    var m2 := StripKeeps(c, |p| + 1);
    assert t[m1] == '_' && t[m1 + 1] == '_';
    NoDoubleUnderscoreAt(t);
    if |t| > 0 && (t[0] == '+' || t[0] == '-') {
      assert t[1..][m1 - 1] == '_' && t[1..][m1] == '_';
      NoDoubleUnderscoreAt(t[1..]);
    }
  }

  /** `int()` refuses an underscore at the start or the end of the digits, and two
      underscores in a row: `int("_1")`, `int("1_")` and `int("1__0")` raise. */
  lemma ParseIntRejectsStrayUnderscore(p: string, q: string)
    ensures ParseInt("_" + q) == None
    ensures ParseInt(p + "_") == None
    ensures ParseInt(p + "__" + q) == None
  {
    LeadingUnderscoreRefused(q);
    TrailingUnderscoreRefused(p);
    DoubleUnderscoreRefused(p, q);
  }
}
