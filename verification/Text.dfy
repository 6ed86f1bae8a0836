/** The few Python string operations the model relies on. */
module Text {

  /** `str.isspace` on one character, which is also what `\s` matches in `re`. */
  predicate IsSpace(c: char) {
    SpaceCode(c as int)
  }

  predicate SpaceCode(n: int) {
    || 9 <= n <= 13 || 28 <= n <= 32 || n == 133 || n == 160 || n == 5760
    || 8192 <= n <= 8202 || n == 8232 || n == 8233 || n == 8239 || n == 8287 || n == 12288
  }

  function LeftStrip(s: string): string {
    if s != [] && IsSpace(s[0]) then LeftStrip(s[1..]) else s
  }

  function RightStrip(s: string): string {
    if s != [] && IsSpace(s[|s| - 1]) then RightStrip(s[..|s| - 1]) else s
  }

  /** `str.strip` */
  function Strip(s: string): string {
    RightStrip(LeftStrip(s))
  }

  predicate Blank(s: string) {
    forall i | 0 <= i < |s| :: IsSpace(s[i])
  }

  lemma {:induction false} LeftStripEmptyExactly(s: string)
    ensures LeftStrip(s) == "" <==> Blank(s)
  {
    if s != [] && IsSpace(s[0]) {
      LeftStripEmptyExactly(s[1..]);
      assert Blank(s) <==> Blank(s[1..]) by {
        if Blank(s) { assert forall i | 0 <= i < |s[1..]| :: s[1..][i] == s[i + 1]; }
        if Blank(s[1..]) { assert forall i | 1 <= i < |s| :: s[i] == s[1..][i - 1]; }
      }
    }
  }

  lemma {:induction false} RightStripKeepsFirst(s: string)
    requires s != "" && !IsSpace(s[0])
    ensures RightStrip(s) != ""
  {
    if IsSpace(s[|s| - 1]) {
      RightStripKeepsFirst(s[..|s| - 1]);
    }
  }

  /** Stripping leaves nothing exactly of a blank string. */
  lemma StripEmptyExactly(s: string)
    ensures Strip(s) == "" <==> Blank(s)
  {
    LeftStripEmptyExactly(s);
    LeftStripTrims(s);
    if LeftStrip(s) != "" {
      RightStripKeepsFirst(LeftStrip(s));
    }
  }

  lemma {:induction false} LeftStripTrims(s: string)
    ensures LeftStrip(s) != [] ==> !IsSpace(LeftStrip(s)[0])
    ensures |LeftStrip(s)| <= |s|
  {
    if s != [] && IsSpace(s[0]) {
      LeftStripTrims(s[1..]);
    }
  }

  lemma {:induction false} RightStripTrims(s: string)
    ensures RightStrip(s) <= s
    ensures RightStrip(s) != [] ==> !IsSpace(RightStrip(s)[|RightStrip(s)| - 1])
  {
    if s != [] && IsSpace(s[|s| - 1]) {
      RightStripTrims(s[..|s| - 1]);
    }
  }

  /** What is stripped has no whitespace at its ends. */
  lemma StripTrims(s: string)
    ensures Strip(s) != [] ==> !IsSpace(Strip(s)[0]) && !IsSpace(Strip(s)[|Strip(s)| - 1])
  {
    LeftStripTrims(s);
    RightStripTrims(LeftStrip(s));
  }

  lemma {:induction false} LeftStripDrops(s: string) returns (a: string)
    ensures s == a + LeftStrip(s) && Blank(a)
  {
    if s != [] && IsSpace(s[0]) {
      var rest := LeftStripDrops(s[1..]);
      a := [s[0]] + rest;
      assert s == [s[0]] + s[1..];
    } else {
      a := [];
    }
  }

  lemma {:induction false} RightStripDrops(s: string) returns (b: string)
    ensures s == RightStrip(s) + b && Blank(b)
  {
    if s != [] && IsSpace(s[|s| - 1]) {
      var rest := RightStripDrops(s[..|s| - 1]);
      b := rest + [s[|s| - 1]];
      assert s == s[..|s| - 1] + [s[|s| - 1]];
    } else {
      b := [];
    }
  }

  /** Stripping drops whitespace from the two ends, and nothing else. */
  lemma StripDrops(s: string) returns (a: string, b: string)
    ensures s == a + Strip(s) + b && Blank(a) && Blank(b)
    ensures Strip(s) != "" ==> !IsSpace(Strip(s)[0]) && !IsSpace(Strip(s)[|Strip(s)| - 1])
  {
    a := LeftStripDrops(s);
    b := RightStripDrops(LeftStrip(s));
    StripTrims(s);
  }

  lemma {:induction false} LeftStripSkips(a: string, m: string)
    requires Blank(a) && m != "" && !IsSpace(m[0])
    ensures LeftStrip(a + m) == m
  {
    if a == "" {
      assert a + m == m;
    } else {
      LeftStripSkips(a[1..], m);
      assert (a + m)[1..] == a[1..] + m;
    }
  }

  lemma {:induction false} RightStripSkips(m: string, b: string)
    requires Blank(b) && m != "" && !IsSpace(m[|m| - 1])
    ensures RightStrip(m + b) == m
  {
    if b == "" {
      assert m + b == m;
    } else {
      RightStripSkips(m, b[..|b| - 1]);
      assert (m + b)[..|m + b| - 1] == m + b[..|b| - 1];
    }
  }

  /** What lies between whitespace is what stripping leaves. */
  lemma StripSkips(a: string, m: string, b: string)
    requires Blank(a) && Blank(b) && m != "" && !IsSpace(m[0]) && !IsSpace(m[|m| - 1])
    ensures Strip(a + m + b) == m
  {
    assert a + m + b == a + (m + b) && (m + b)[0] == m[0];
    LeftStripSkips(a, m + b);
    RightStripSkips(m, b);
  }

  lemma StripIdempotent(s: string)
    ensures Strip(Strip(s)) == Strip(s)
  {
    StripTrims(s);
  }

  predicate IsDigit(c: char) {
    '0' <= c <= '9'
  }

  function DigitChar(d: nat): (c: char)
    requires d < 10
    ensures IsDigit(c)
  {
    '0' + d as char
  }

  /** `str` of a natural number. */
  function Decimal(n: nat): (s: string)
    ensures s != [] && forall i | 0 <= i < |s| :: IsDigit(s[i])
  {
    if n < 10 then [DigitChar(n)] else Decimal(n / 10) + [DigitChar(n % 10)]
  }

  function ParseDecimal(s: string): nat
    requires forall i | 0 <= i < |s| :: IsDigit(s[i])
  {
    if s == [] then 0
    else
      assert IsDigit(s[|s| - 1]);
      10 * ParseDecimal(s[..|s| - 1]) + (s[|s| - 1] as int - '0' as int)
  }

  lemma {:induction false} ParseInvertsDecimal(n: nat)
    ensures ParseDecimal(Decimal(n)) == n
  {
    if n >= 10 {
      ParseInvertsDecimal(n / 10);
      assert Decimal(n)[..|Decimal(n)| - 1] == Decimal(n / 10);
    } else {
      assert Decimal(n)[..0] == [];
    }
  }

  /** `a + c + b` splits in one way only when `c` occurs in neither `a` nor `a'`. */
  lemma SplitUnique(a: string, b: string, a': string, b': string, c: char)
    requires c !in a && c !in a'
    requires a + [c] + b == a' + [c] + b'
    ensures a == a' && b == b'
  {
    var s, s' := a + [c] + b, a' + [c] + b';
    assert s[|a|] == c && s'[|a'|] == c;
    assert |a| == |a'|;
    assert a == s[..|a|] == a';
    assert b == s[|a| + 1..] == b';
  }
}
