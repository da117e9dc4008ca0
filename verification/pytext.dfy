/** The few Python string operations the script relies on: str.strip(), the `in`
    substring test, str.replace(marker, "") and int() on a string. */
module PyText {
  import opened Failures

  /** Python's str.isspace: the characters of bidirectional class WS, B or S and of
      category Zs. str.strip() trims exactly this set; int() trims it too, except for
      the information separators (see IsSeparator). */
  predicate IsSpace(c: char) {
    || c == ' '
    || ('\t' <= c <= '\r')
    || ('\U{1C}' <= c <= '\U{1F}')
    || c == '\U{85}'
    || c == '\U{A0}'
    || c == '\U{1680}'
    || ('\U{2000}' <= c <= '\U{200A}')
    || c == '\U{2028}'
    || c == '\U{2029}'
    || c == '\U{202F}'
    || c == '\U{205F}'
    || c == '\U{3000}'
  }

  predicate AllSpace(s: string) {
    forall i :: 0 <= i < |s| ==> IsSpace(s[i])
  }

  /** Text without surrounding whitespace: empty, or starting and ending with a non-space. */
  predicate Unpadded(t: string) {
    t == [] || (!IsSpace(t[0]) && !IsSpace(t[|t| - 1]))
  }

  // ---------------------------------------------------------------------------
  // str.strip()

  /** str.lstrip(): the suffix left after dropping the leading whitespace. */
  function TrimStart(s: string): (r: string)
    ensures |r| <= |s| && r == s[|s| - |r|..]
    ensures AllSpace(s[..|s| - |r|])
    ensures r != [] ==> !IsSpace(r[0])
  {
    if s != [] && IsSpace(s[0]) then
      var r := TrimStart(s[1..]);
      var k := |s| - |r|;
      assert s[1..][k - 1..] == s[k..];
      SpacePrefix(s, k);
      r
    else s
  }

  /** A space followed by k - 1 spaces is a run of k spaces. */
  lemma {:induction false} SpacePrefix(s: string, k: nat)
    requires 1 <= k <= |s| && IsSpace(s[0]) && AllSpace(s[1..][..k - 1])
    ensures AllSpace(s[..k])
  {
    forall i | 0 <= i < k ensures IsSpace(s[..k][i]) {
      if i == 0 {
        assert s[..k][i] == s[0];
      } else {
        assert s[..k][i] == s[1..][..k - 1][i - 1];
      }
    }
  }

  /** str.rstrip(): the prefix left after dropping the trailing whitespace. */
  function TrimEnd(s: string): (r: string)
    ensures |r| <= |s| && r == s[..|r|]
    ensures AllSpace(s[|r|..])
    ensures r != [] ==> !IsSpace(r[|r| - 1])
  {
    if s != [] && IsSpace(s[|s| - 1]) then
      var r := TrimEnd(s[..|s| - 1]);
      var p := s[..|s| - 1];
      assert p[..|r|] == s[..|r|];
      forall j | 0 <= j < |s| - |r| ensures IsSpace(s[|r|..][j]) {
        if j < |p| - |r| {
          assert s[|r|..][j] == p[|r|..][j];
        }
      }
      r
    else s
  }

  /** Number of leading whitespace characters that str.strip() drops. */
  function Lead(s: string): nat {
    |s| - |TrimStart(s)|
  }

  /** str.strip(). */
  function Strip(s: string): (r: string)
    ensures |r| <= |s|
  {
    TrimEnd(TrimStart(s))
  }

  /** The stripped text starts and ends with a non-space, and is empty exactly when
      the text is all whitespace. */
  lemma {:induction false} StripShape(s: string)
    ensures Unpadded(Strip(s))
    ensures Strip(s) == [] <==> AllSpace(s)
  {
    var t := TrimStart(s);
    var r := TrimEnd(t);
    assert t != [] ==> t[0] == s[|s| - |t|];
    assert t == [] ==> s[..|s| - |t|] == s;
    assert r == [] ==> t[|r|..] == t;
  }

  lemma {:induction false} TrimStartPadded(ws: string, x: string)
    requires AllSpace(ws)
    requires x == [] || !IsSpace(x[0])
    ensures TrimStart(ws + x) == x
  {
    if ws != [] {
      assert (ws + x)[1..] == ws[1..] + x;
      TrimStartPadded(ws[1..], x);
    }
  }

  lemma {:induction false} TrimEndPadded(x: string, ws: string)
    requires AllSpace(ws)
    requires x == [] || !IsSpace(x[|x| - 1])
    ensures TrimEnd(x + ws) == x
  {
    if ws != [] {
      assert (x + ws)[..|x + ws| - 1] == x + ws[..|ws| - 1];
      TrimEndPadded(x, ws[..|ws| - 1]);
    }
  }

  /** strip() undoes any whitespace padding of an unpadded text. */
  lemma {:induction false} StripPadded(ws1: string, t: string, ws2: string)
    requires AllSpace(ws1) && AllSpace(ws2) && Unpadded(t)
    ensures Strip(ws1 + t + ws2) == t
  {
    assert ws1 + t + ws2 == ws1 + (t + ws2);
    if t == [] {
      assert AllSpace(ws1 + t + ws2);
    } else {
      TrimStartPadded(ws1, t + ws2);
      TrimEndPadded(t, ws2);
    }
  }

  /** strip() leaves a text without surrounding whitespace as it is. */
  lemma {:induction false} StripUnpadded(t: string)
    requires Unpadded(t)
    ensures Strip(t) == t
  {
    if t != [] {
      TrimStartPadded([], t);
      assert [] + t == t;
      TrimEndPadded(t, []);
      assert t + [] == t;
    }
  }

  /** strip() is idempotent. */
  lemma {:induction false} StripIdempotent(s: string)
    ensures Strip(Strip(s)) == Strip(s)
  {
    var t := Strip(s);
    StripShape(s);
    StripUnpadded(t);
  }

  lemma {:induction false} TrimStartKeeps(s: string, i: nat)
    requires i < |s| && !IsSpace(s[i])
    ensures |s| - |TrimStart(s)| <= i
    ensures TrimStart(s)[i - (|s| - |TrimStart(s)|)] == s[i]
  {
    var t := TrimStart(s);
    var lead := |s| - |t|;
    TrimStartStops(s, i);
    assert t[i - lead] == s[lead..][i - lead];
  }

  /** lstrip() stops at the first non-space. */
  lemma {:induction false} TrimStartStops(s: string, i: nat)
    requires i < |s| && !IsSpace(s[i])
    ensures |s| - |TrimStart(s)| <= i
  {
    if s != [] && IsSpace(s[0]) {
      assert s[1..][i - 1] == s[i];
      TrimStartStops(s[1..], i - 1);
    }
  }

  lemma {:induction false} TrimEndKeeps(t: string, k: nat)
    requires k < |t| && !IsSpace(t[k])
    ensures k < |TrimEnd(t)| && TrimEnd(t)[k] == t[k]
  {
    var r := TrimEnd(t);
    TrimEndStops(t, k);
    assert r[k] == t[..|r|][k];
  }

  /** rstrip() stops at the last non-space. */
  lemma {:induction false} TrimEndStops(t: string, k: nat)
    requires k < |t| && !IsSpace(t[k])
    ensures k < |TrimEnd(t)|
  {
    if t != [] && IsSpace(t[|t| - 1]) {
      assert t[..|t| - 1][k] == t[k];
      TrimEndStops(t[..|t| - 1], k);
    }
  }

  /** strip() keeps every non-space character, at its position shifted by the leading run. */
  lemma {:induction false} StripKeeps(s: string, i: nat)
    requires i < |s| && !IsSpace(s[i])
    ensures Lead(s) <= i < Lead(s) + |Strip(s)|
    ensures Strip(s)[i - Lead(s)] == s[i]
  {
    TrimStartKeeps(s, i);
    TrimEndKeeps(TrimStart(s), i - Lead(s));
  }

  // ---------------------------------------------------------------------------
  // `m in s`

  /** The text m occurs in s starting at index i. */
  predicate OccursAt(s: string, m: string, i: int) {
    0 <= i <= |s| - |m| && s[i..i + |m|] == m
  }

  /** Python's `m in s`, scanning from the left. */
  function Contains(s: string, m: string): (found: bool)
    ensures m == [] ==> found
    ensures found ==> |m| <= |s|
    decreases |s|
  {
    if |s| < |m| then false
    else s[..|m|] == m || Contains(s[1..], m)
  }

  /** The scan finds m exactly when m occurs somewhere in s. */
  lemma {:induction false} ContainsIff(s: string, m: string)
    ensures Contains(s, m) <==> exists i :: OccursAt(s, m, i)
    decreases |s|
  {
    if |s| >= |m| {
      if s[..|m|] == m {
        assert OccursAt(s, m, 0);
        return;
      }
      ContainsIff(s[1..], m);
      forall j | OccursAt(s[1..], m, j) ensures OccursAt(s, m, j + 1) {
        assert s[1..][j..j + |m|] == s[j + 1..j + 1 + |m|];
      }
      forall i | 1 <= i && OccursAt(s, m, i) ensures OccursAt(s[1..], m, i - 1) {
        assert s[1..][i - 1..i - 1 + |m|] == s[i..i + |m|];
      }
    }
  }

  // ---------------------------------------------------------------------------
  // str.replace(m, "")

  /** str.replace(m, ""): removes the occurrences of m found by a single left-to-right
      scan that resumes after each removed occurrence. */
  function RemoveAll(s: string, m: string): (r: string)
    requires m != []
    ensures |r| <= |s|
    ensures Contains(s, m) <==> |r| < |s|
    decreases |s|
  {
    if |s| < |m| then s
    else if s[..|m|] == m then RemoveAll(s[|m|..], m)
    else [s[0]] + RemoveAll(s[1..], m)
  }

  /** Text in which m does not occur is left as it is. */
  lemma {:induction false} RemoveAbsent(s: string, m: string)
    requires m != [] && !Contains(s, m)
    ensures RemoveAll(s, m) == s
    decreases |s|
  {
    if |s| >= |m| {
      RemoveAbsent(s[1..], m);
    }
  }

  /** m cannot occur in a text none of whose characters is m's first. */
  lemma {:induction false} AbsentStart(s: string, m: string)
    requires m != []
    requires forall i :: 0 <= i < |s| ==> s[i] != m[0]
    ensures !Contains(s, m)
    decreases |s|
  {
    if |s| >= |m| {
      assert s[..|m|][0] == s[0];
      AbsentStart(s[1..], m);
    }
  }

  /** An occurrence of m is removed when no earlier character could start one. */
  lemma {:induction false} RemoveAfter(a: string, m: string, b: string)
    requires m != []
    requires forall i :: 0 <= i < |a| ==> a[i] != m[0]
    ensures RemoveAll(a + m + b, m) == a + RemoveAll(b, m)
  {
    if a == [] {
      assert [] + m + b == m + b;
      RemoveHit(m, b);
    } else {
      var rest := a[1..];
      forall i | 0 <= i < |rest| ensures rest[i] != m[0] {
        assert rest[i] == a[i + 1];
      }
      var s := a + m + b;
      assert s[0] == a[0] && s[1..] == rest + m + b;
      RemoveMiss(s, m);
      RemoveAfter(rest, m, b);
      assert a + RemoveAll(b, m) == [a[0]] + (rest + RemoveAll(b, m));
    }
  }

  /** An occurrence of m at the front is removed and the scan resumes after it. */
  lemma {:induction false} RemoveHit(m: string, b: string)
    requires m != []
    ensures RemoveAll(m + b, m) == RemoveAll(b, m)
  {
    assert (m + b)[..|m|] == m && (m + b)[|m|..] == b;
  }

  /** A first character that cannot start m is kept and the scan moves on by one. */
  lemma {:induction false} RemoveMiss(s: string, m: string)
    requires m != [] && |s| >= |m| && s[0] != m[0]
    ensures RemoveAll(s, m) == [s[0]] + RemoveAll(s[1..], m)
  {
    assert s[..|m|][0] == s[0];
  }

  // ---------------------------------------------------------------------------
  // int() on a string

  /** The decimal digits int() accepts in this model: ASCII, Arabic-Indic and
      Extended Arabic-Indic. */
  predicate IsDigit(c: char) {
    || ('0' <= c <= '9')
    || ('\U{0660}' <= c <= '\U{0669}')
    || ('\U{06F0}' <= c <= '\U{06F9}')
  }

  function DigitValue(c: char): (d: nat)
    requires IsDigit(c)
    ensures d < 10
  {
    if c <= '9' then c as int - '0' as int
    else if c <= '\U{0669}' then c as int - 0x0660
    else c as int - 0x06F0
  }

  predicate DigitOrUnderscore(c: char) {
    IsDigit(c) || c == '_'
  }

  /** The digit part of an int() literal: digits, where single underscores may
      separate two digits. */
  predicate DigitRun(t: string) {
    && t != []
    && IsDigit(t[0])
    && IsDigit(t[|t| - 1])
    && (forall i :: 0 <= i < |t| ==> DigitOrUnderscore(t[i]))
    && (forall i, j :: 0 <= i < |t| && 0 <= j < |t| && j == i + 1 && t[i] == '_' ==> t[j] != '_')
  }

  /** The number a run of digits denotes, underscores ignored. */
  function RunValue(t: string): nat
    requires forall i :: 0 <= i < |t| ==> DigitOrUnderscore(t[i])
  {
    if t == [] then 0
    else
      var c := t[|t| - 1];
      assert DigitOrUnderscore(c);
      if c == '_' then RunValue(t[..|t| - 1])
      else RunValue(t[..|t| - 1]) * 10 + DigitValue(c)
  }

  /** The information separators U+001C to U+001F. str.isspace accepts them, but int()
      passes code points below 128 through unchanged and trims only ASCII whitespace
      there, so to int() they are foreign characters wherever they stand. */
  predicate IsSeparator(c: char) {
    '\U{1C}' <= c <= '\U{1F}'
  }

  predicate NoSeparator(s: string) {
    forall i :: 0 <= i < |s| ==> !IsSeparator(s[i])
  }

  /** int(s): surrounding whitespace, then an optional sign, then a digit run;
      anything else is the ValueError that int() raises, which names the text. */
  function ParseInt(s: string): (r: Result<int>)
    ensures r.Err? ==> r.error == NotAnInteger(s)
    ensures r.Ok? ==> NoSeparator(s) && Strip(s) != []
  {
    var v := if NoSeparator(s) then SignedRunValue(Strip(s)) else None;
    if v.Some? then Ok(v.value) else Err(NotAnInteger(s))
  }

  /** The value of a stripped int() literal: an optional sign and a digit run. */
  function SignedRunValue(t: string): (v: Option<int>)
    ensures v.Some? ==> t != []
  {
    var signed := t != [] && (t[0] == '-' || t[0] == '+');
    var body := if signed then t[1..] else t;
    if DigitRun(body) then
      var n: int := RunValue(body);
      Some(if signed && t[0] == '-' then -n else n)
    else
      None
  }

  /** str(n) for a natural number: ASCII decimal digits, most significant first. */
  function Render(n: nat): string {
    if n < 10 then [AsciiDigit(n)] else Render(n / 10) + [AsciiDigit(n % 10)]
  }

  function AsciiDigit(d: nat): (c: char)
    requires d < 10
    ensures IsDigit(c) && DigitValue(c) == d
  {
    ('0' as int + d) as char
  }

  /** str(n) for any integer. */
  function Signed(n: int): string {
    if n < 0 then "-" + Render(-n) else Render(n)
  }

  lemma {:induction false} RenderDigits(n: nat)
    ensures DigitRun(Render(n)) && RunValue(Render(n)) == n
    ensures forall i :: 0 <= i < |Render(n)| ==> IsDigit(Render(n)[i])
  {
    if n >= 10 {
      RenderDigits(n / 10);
      var p := Render(n / 10);
      assert Render(n)[..|Render(n)| - 1] == p;
      assert forall i :: 0 <= i < |p| ==> Render(n)[i] == p[i];
    }
  }

  /** int() reads back what str() writes, whatever whitespace surrounds it. */
  lemma {:induction false} ParseSigned(ws1: string, n: int, ws2: string)
    requires AllSpace(ws1) && AllSpace(ws2) && NoSeparator(ws1) && NoSeparator(ws2)
    ensures ParseInt(ws1 + Signed(n) + ws2) == Ok(n)
  {
    var t := Signed(n);
    SignedUnpadded(n);
    SignedNoSeparator(n);
    SignedValue(n);
    NoSeparatorJoin(ws1, t, ws2);
    StripPadded(ws1, t, ws2);
    assert SignedRunValue(Strip(ws1 + t + ws2)) == Some(n);
    ParseStripped(ws1 + t + ws2, n);
  }

  /** The stripped literal str() writes has the value it was written from. */
  lemma {:induction false} SignedValue(n: int)
    ensures SignedRunValue(Signed(n)) == Some(n)
  {
    var m: nat := if n < 0 then -n else n;
    var d := Render(m);
    RenderDigits(m);
    var t := Signed(n);
    if n < 0 {
      assert t[0] == '-' && t[1..] == d;
    } else {
      assert !(d[0] == '-' || d[0] == '+');
    }
  }

  lemma {:induction false} SignedNoSeparator(n: int)
    ensures NoSeparator(Signed(n))
  {
    SignedChars(n);
    var t := Signed(n);
    forall i | 0 <= i < |t| ensures !IsSeparator(t[i]) {
      assert t[i] == '-' || IsDigit(t[i]);
    }
  }

  lemma {:induction false} SignedChars(n: int)
    ensures forall i :: 0 <= i < |Signed(n)| ==> Signed(n)[i] == '-' || IsDigit(Signed(n)[i])
  {
    RenderDigits(if n < 0 then -n else n);
  }

  lemma {:induction false} SignedUnpadded(n: int)
    ensures Unpadded(Signed(n))
  {
    var m: nat := if n < 0 then -n else n;
    RenderDigits(m);
    assert Signed(n)[|Signed(n)| - 1] == Render(m)[|Render(m)| - 1];
  }

  lemma {:induction false} NoSeparatorJoin(a: string, b: string, c: string)
    requires NoSeparator(a) && NoSeparator(b) && NoSeparator(c)
    ensures NoSeparator(a + b + c)
  {
    var s := a + b + c;
    forall i | 0 <= i < |s| ensures !IsSeparator(s[i]) {
      if i < |a| {
        assert s[i] == a[i];
      } else if i < |a| + |b| {
        assert s[i] == b[i - |a|];
      } else {
        assert s[i] == c[i - |a| - |b|];
      }
    }
  }

  /** int() of a text whose stripped form is a digit run. */
  lemma {:induction false} ParseDigitRun(s: string)
    requires NoSeparator(s) && DigitRun(Strip(s))
    ensures ParseInt(s) == Ok(RunValue(Strip(s)))
  {
    UnsignedValue(Strip(s));
    ParseStripped(s, RunValue(Strip(s)));
  }

  /** int() of a text whose stripped form is a minus sign and a digit run. */
  lemma {:induction false} ParseNegativeRun(s: string)
    requires NoSeparator(s)
    requires Strip(s) != [] && Strip(s)[0] == '-' && DigitRun(Strip(s)[1..])
    ensures ParseInt(s) == Ok(-(RunValue(Strip(s)[1..]) as int))
  {
    NegativeValue(Strip(s));
    ParseStripped(s, -(RunValue(Strip(s)[1..]) as int));
  }

  lemma {:induction false} NegativeValue(t: string)
    requires t != [] && t[0] == '-' && DigitRun(t[1..])
    ensures SignedRunValue(t) == Some(-(RunValue(t[1..]) as int))
  {
  }

  lemma {:induction false} UnsignedValue(t: string)
    requires DigitRun(t)
    ensures SignedRunValue(t) == Some(RunValue(t) as int)
  {
    assert !(t[0] == '-' || t[0] == '+');
  }

  /** int() of a separator-free text is the value of its stripped form. */
  lemma {:induction false} ParseStripped(s: string, v: int)
    requires NoSeparator(s) && SignedRunValue(Strip(s)) == Some(v)
    ensures ParseInt(s) == Ok(v)
  {
  }

  /** A character that is neither whitespace, a sign, a digit nor an underscore
      makes int() fail. */
  lemma {:induction false} ParseRejectsForeign(s: string, i: nat)
    requires i < |s|
    requires !IsSpace(s[i]) && !DigitOrUnderscore(s[i]) && s[i] != '+' && s[i] != '-'
    ensures ParseInt(s) == Err(NotAnInteger(s))
  {
    StripKeeps(s, i);
    NotSignedRun(Strip(s), i - Lead(s));
  }

  /** A character other than a digit, an underscore or a sign rules out a literal. */
  lemma {:induction false} NotSignedRun(t: string, k: nat)
    requires k < |t| && !DigitOrUnderscore(t[k]) && t[k] != '+' && t[k] != '-'
    ensures SignedRunValue(t) == None
  {
    if t[0] == '-' || t[0] == '+' {
      assert k > 0 && t[1..][k - 1] == t[k];
    }
  }

  /** An information separator makes int() fail wherever it stands. */
  lemma {:induction false} ParseRejectsSeparator(s: string, i: nat)
    requires i < |s| && IsSeparator(s[i])
    ensures ParseInt(s) == Err(NotAnInteger(s))
  {
  }

  /** Text that is empty or all whitespace is not an integer. */
  lemma {:induction false} ParseRejectsBlank(s: string)
    requires AllSpace(s)
    ensures ParseInt(s) == Err(NotAnInteger(s))
  {
    StripShape(s);
  }
}
