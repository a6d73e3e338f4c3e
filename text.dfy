/**
 * Characters and strings as the JavaScript runtime sees them: the character
 * classes used by the regular expressions of the application (`\s`, `\w`,
 * `\d`, `[a-z0-9]`), `String.prototype.trim`, `toLowerCase`, `normalize("NFD")`,
 * decimal rendering of numbers and `parseInt`.
 *
 * Case folding and canonical decomposition are given by a finite table that
 * covers ASCII, the Latin-1 letters and the Polish letters; every other
 * character folds to itself.
 */
module Text {
  import opened Wrappers

  predicate IsAsciiLower(c: char) { 'a' <= c <= 'z' }
  predicate IsAsciiUpper(c: char) { 'A' <= c <= 'Z' }
  predicate IsDigit(c: char) { '0' <= c <= '9' }
  predicate IsAsciiAlnum(c: char) { IsAsciiLower(c) || IsAsciiUpper(c) || IsDigit(c) }

  /** JavaScript's `\w`. */
  predicate IsWordChar(c: char) { IsAsciiAlnum(c) || c == '_' }

  /** The class `[a-z0-9]`. */
  predicate IsSlugAlnum(c: char) { IsAsciiLower(c) || IsDigit(c) }

  /** The class `[a-z0-9-]`: the alphabet of every slug. */
  predicate IsSlugChar(c: char) { IsSlugAlnum(c) || c == '-' }

  predicate IsHyphen(c: char) { c == '-' }

  predicate AllSlugChars(s: string) { forall i :: 0 <= i < |s| ==> IsSlugChar(s[i]) }

  /** Line terminators: the characters `.` does not match in a regular expression. */
  predicate IsLineTerminator(c: char) {
    c == '\n' || c == '\r' || c == '\U{2028}' || c == '\U{2029}'
  }

  /** JavaScript's `\s`, which is also the set `trim` removes (WhiteSpace and LineTerminator). */
  predicate IsSpace(c: char) {
    || c == ' ' || c == '\t' || c == '\U{B}' || c == '\U{C}' || c == '\U{A0}' || c == '\U{FEFF}'
    || IsLineTerminator(c)
    || c == '\U{1680}' || ('\U{2000}' <= c <= '\U{200A}')
    || c == '\U{202F}' || c == '\U{205F}' || c == '\U{3000}'
  }

  predicate NotSpace(c: char) { !IsSpace(c) }

  // ---------------------------------------------------------------------------
  // Case folding and canonical decomposition
  // ---------------------------------------------------------------------------

  /** `toLowerCase` on one character. */
  function LowerChar(c: char): (r: char)
    ensures IsAsciiUpper(c) ==> IsAsciiLower(r)
    ensures c < '\U{80}' && !IsAsciiUpper(c) ==> r == c
  {
    if 'A' <= c <= 'Z' then (c as int + 32) as char
    else if '\U{C0}' <= c <= '\U{DE}' && c != '\U{D7}' then (c as int + 32) as char
    else match c
      case 'Ą' => 'ą'
      case 'Ć' => 'ć'
      case 'Ę' => 'ę'
      case 'Ł' => 'ł'
      case 'Ń' => 'ń'
      case 'Ś' => 'ś'
      case 'Ź' => 'ź'
      case 'Ż' => 'ż'
      case _ => c
  }

  /** `toUpperCase` on one character of `\w`. */
  function UpperChar(c: char): (r: char)
    ensures IsAsciiLower(c) ==> IsAsciiUpper(r)
    ensures !IsAsciiLower(c) ==> r == c
  {
    if 'a' <= c <= 'z' then (c as int - 32) as char else c
  }

  function Lower(s: string): (r: string)
    ensures |r| == |s|
  {
    seq(|s|, i requires 0 <= i < |s| => LowerChar(s[i]))
  }

  /** The combining diacritical marks, U+0300 to U+036F. */
  predicate IsCombiningMark(c: char) { '\U{300}' <= c <= '\U{36F}' }

  predicate NotMark(c: char) { !IsCombiningMark(c) }

  const Grave: char := '\U{300}'
  const Acute: char := '\U{301}'
  const Circumflex: char := '\U{302}'
  const Tilde: char := '\U{303}'
  const DotAbove: char := '\U{307}'
  const Diaeresis: char := '\U{308}'
  const RingAbove: char := '\U{30A}'
  const Cedilla: char := '\U{327}'
  const Ogonek: char := '\U{328}'

  /**
   * Canonical decomposition of one lower-case letter: a base letter followed
   * by a combining mark. Letters without a decomposition, such as 'ł', 'ø'
   * or 'ß', stay as they are.
   */
  function Decompose(c: char): (r: string)
    ensures 1 <= |r| <= 2
    ensures |r| == 1 ==> r == [c]
    ensures |r| == 2 ==> IsAsciiLower(r[0]) && IsCombiningMark(r[1])
  {
    match c
    case 'à' => ['a', Grave]
    case 'á' => ['a', Acute]
    case 'â' => ['a', Circumflex]
    case 'ã' => ['a', Tilde]
    case 'ä' => ['a', Diaeresis]
    case 'å' => ['a', RingAbove]
    case 'ą' => ['a', Ogonek]
    case 'ç' => ['c', Cedilla]
    case 'ć' => ['c', Acute]
    case 'è' => ['e', Grave]
    case 'é' => ['e', Acute]
    case 'ê' => ['e', Circumflex]
    case 'ë' => ['e', Diaeresis]
    case 'ę' => ['e', Ogonek]
    case 'ì' => ['i', Grave]
    case 'í' => ['i', Acute]
    case 'î' => ['i', Circumflex]
    case 'ï' => ['i', Diaeresis]
    case 'ñ' => ['n', Tilde]
    case 'ń' => ['n', Acute]
    case 'ò' => ['o', Grave]
    case 'ó' => ['o', Acute]
    case 'ô' => ['o', Circumflex]
    case 'õ' => ['o', Tilde]
    case 'ö' => ['o', Diaeresis]
    case 'ś' => ['s', Acute]
    case 'ù' => ['u', Grave]
    case 'ú' => ['u', Acute]
    case 'û' => ['u', Circumflex]
    case 'ü' => ['u', Diaeresis]
    case 'ý' => ['y', Acute]
    case 'ÿ' => ['y', Diaeresis]
    case 'ź' => ['z', Acute]
    case 'ż' => ['z', DotAbove]
    case _ => [c]
  }

  /** `normalize("NFD")`. */
  function Nfd(s: string): (r: string)
    ensures |r| >= |s|
  {
    if s == [] then [] else Decompose(s[0]) + Nfd(s[1..])
  }

  /** Removes every combining mark: `.replace(/[̀-ͯ]/g, "")`. */
  function StripMarks(s: string): (r: string)
    ensures forall i :: 0 <= i < |r| ==> !IsCombiningMark(r[i])
  {
    if s == [] then []
    else if IsCombiningMark(s[0]) then StripMarks(s[1..])
    else [s[0]] + StripMarks(s[1..])
  }

  /** Lower-case, decompose and drop the marks: how both slug rules begin. */
  function Fold(s: string): (r: string)
    ensures forall i :: 0 <= i < |r| ==> !IsCombiningMark(r[i])
  {
    StripMarks(Nfd(Lower(s)))
  }

  /** A slug character is its own fold, so a string of them folds to itself. */
  lemma {:induction false} FoldSlugChars(s: string)
    requires AllSlugChars(s)
    ensures Fold(s) == s
  {
    assert Lower(s) == s;
    NfdSlugChars(s);
    StripMarksSlugChars(s);
  }

  lemma {:induction false} NfdSlugChars(s: string)
    requires AllSlugChars(s)
    ensures Nfd(s) == s
  {
    if s != [] {
      assert IsSlugChar(s[0]);
      NfdSlugChars(s[1..]);
    }
  }

  lemma {:induction false} StripMarksSlugChars(s: string)
    requires AllSlugChars(s)
    ensures StripMarks(s) == s
  {
    if s != [] {
      StripMarksSlugChars(s[1..]);
    }
  }

  /** Folding works character by character, so it distributes over concatenation. */
  lemma {:induction false} FoldConcat(a: string, b: string)
    ensures Fold(a + b) == Fold(a) + Fold(b)
  {
    assert Lower(a + b) == Lower(a) + Lower(b);
    NfdConcat(Lower(a), Lower(b));
    StripMarksConcat(Nfd(Lower(a)), Nfd(Lower(b)));
  }

  lemma {:induction false} NfdConcat(a: string, b: string)
    ensures Nfd(a + b) == Nfd(a) + Nfd(b)
  {
    if a == [] {
      assert a + b == b;
    } else {
      assert (a + b)[1..] == a[1..] + b;
      NfdConcat(a[1..], b);
    }
  }

  lemma {:induction false} StripMarksConcat(a: string, b: string)
    ensures StripMarks(a + b) == StripMarks(a) + StripMarks(b)
  {
    if a == [] {
      assert a + b == b;
    } else {
      assert (a + b)[1..] == a[1..] + b;
      StripMarksConcat(a[1..], b);
    }
  }

  /** A character that lower-casing, decomposition and mark removal all leave alone. */
  predicate Inert(c: char) { LowerChar(c) == c && Decompose(c) == [c] && !IsCombiningMark(c) }

  /** Characters outside the table's range fold to themselves. */
  lemma OutsideTableInert(c: char)
    requires c < 'A' || ('\U{17C}' < c && !IsCombiningMark(c))
    ensures Inert(c)
  {
  }

  lemma SpaceInert(c: char)
    requires IsSpace(c)
    ensures Inert(c)
  {
    if c == '\U{A0}' {
      assert LowerChar(c) == c && Decompose(c) == [c];
    } else {
      OutsideTableInert(c);
    }
  }

  /** A string of inert characters folds to itself. */
  lemma FoldInert(s: string)
    requires forall i :: 0 <= i < |s| ==> Inert(s[i])
    ensures Fold(s) == s
  {
    assert Lower(s) == s;
    NfdInert(s);
    StripMarksInert(s);
  }

  lemma {:induction false} NfdInert(s: string)
    requires forall i :: 0 <= i < |s| ==> Inert(s[i])
    ensures Nfd(s) == s
  {
    if s != [] {
      assert Inert(s[0]);
      NfdInert(s[1..]);
    }
  }

  lemma {:induction false} StripMarksInert(s: string)
    requires forall i :: 0 <= i < |s| ==> Inert(s[i])
    ensures StripMarks(s) == s
  {
    if s != [] {
      assert Inert(s[0]);
      StripMarksInert(s[1..]);
    }
  }

  /** White space is left alone by folding. */
  lemma FoldSpaces(s: string)
    requires forall i :: 0 <= i < |s| ==> IsSpace(s[i])
    ensures Fold(s) == s
  {
    forall i | 0 <= i < |s| ensures Inert(s[i]) {
      SpaceInert(s[i]);
    }
    FoldInert(s);
  }

  // ---------------------------------------------------------------------------
  // Trimming
  // ---------------------------------------------------------------------------

  function TrimStart(s: string): (r: string)
    ensures |r| <= |s| && r == s[|s| - |r|..]
    ensures r == [] || !IsSpace(r[0])
  {
    if s != [] && IsSpace(s[0]) then TrimStart(s[1..]) else s
  }

  function TrimEnd(s: string): (r: string)
    ensures |r| <= |s| && r == s[..|r|]
    ensures r == [] || !IsSpace(r[|r| - 1])
  {
    if s != [] && IsSpace(s[|s| - 1]) then TrimEnd(s[..|s| - 1]) else s
  }

  /** `String.prototype.trim`. */
  function Trim(s: string): (r: string)
    ensures |r| <= |s|
    ensures r == [] || (!IsSpace(r[0]) && !IsSpace(r[|r| - 1]))
    ensures |r| <= |TrimStart(s)| && r == s[|s| - |TrimStart(s)|..][..|r|]
  {
    TrimEnd(TrimStart(s))
  }

  /**
   * `trim` removes only white space: `Trim(s)` sits in `s` after a prefix
   * and before a suffix that are white space throughout.
   */
  lemma TrimRemovesOnlySpace(s: string)
    ensures var k := |s| - |TrimStart(s)|;
      && k + |Trim(s)| <= |s| && Trim(s) == s[k..k + |Trim(s)|]
      && (forall i :: 0 <= i < k ==> IsSpace(s[i]))
      && (forall i :: k + |Trim(s)| <= i < |s| ==> IsSpace(s[i]))
  {
    TrimSlice(s);
    TrimStartRemovesSpace(s);
    TrimSuffixSpace(s);
  }

  lemma TrimSlice(s: string)
    ensures var k := |s| - |TrimStart(s)|;
      k + |Trim(s)| <= |s| && Trim(s) == s[k..k + |Trim(s)|]
  {
  }

  lemma TrimSuffixSpace(s: string)
    ensures forall i :: |s| - |TrimStart(s)| + |Trim(s)| <= i < |s| ==> IsSpace(s[i])
  {
    var t := TrimStart(s);
    var k := |s| - |t|;
    TrimEndRemovesSpace(t);
    forall i | k + |Trim(s)| <= i < |s| ensures IsSpace(s[i]) {
      assert s[i] == t[i - k];
    }
  }

  /** What `TrimStart` removes is white space. */
  lemma {:induction false} TrimStartRemovesSpace(s: string)
    ensures forall i :: 0 <= i < |s| - |TrimStart(s)| ==> IsSpace(s[i])
  {
    if s != [] && IsSpace(s[0]) {
      TrimStartRemovesSpace(s[1..]);
      forall i | 1 <= i < |s| - |TrimStart(s)| ensures IsSpace(s[i]) {
        assert s[i] == s[1..][i - 1];
      }
    }
  }

  /** What `TrimEnd` removes is white space. */
  lemma {:induction false} TrimEndRemovesSpace(s: string)
    ensures forall i :: |TrimEnd(s)| <= i < |s| ==> IsSpace(s[i])
  {
    if s != [] && IsSpace(s[|s| - 1]) {
      TrimEndRemovesSpace(s[..|s| - 1]);
    }
  }

  /** Every character of `Trim(s)` is a character of `s`. */
  lemma TrimChars(s: string, i: nat)
    requires i < |Trim(s)|
    ensures Trim(s)[i] in s
  {
    var k := |s| - |TrimStart(s)|;
    assert Trim(s)[i] == s[k + i];
  }

  lemma {:induction false} TrimStartNoSpace(s: string)
    requires s == [] || !IsSpace(s[0])
    ensures TrimStart(s) == s
  {
  }

  lemma {:induction false} TrimEndNoSpace(s: string)
    requires s == [] || !IsSpace(s[|s| - 1])
    ensures TrimEnd(s) == s
  {
  }

  /** Whitespace around a string does not survive `trim`. */
  lemma {:induction false} TrimSurrounded(pre: string, x: string, post: string)
    requires forall i :: 0 <= i < |pre| ==> IsSpace(pre[i])
    requires forall i :: 0 <= i < |post| ==> IsSpace(post[i])
    ensures Trim(pre + x + post) == Trim(x)
  {
    assert pre + x + post == pre + (x + post);
    TrimStartPrefix(pre, x + post);
    TrimStartAppend(x, post);
    TrimEndSuffix(TrimStart(x), post);
  }

  lemma {:induction false} TrimStartPrefix(pre: string, s: string)
    requires forall i :: 0 <= i < |pre| ==> IsSpace(pre[i])
    ensures TrimStart(pre + s) == TrimStart(s)
  {
    if pre == [] {
      assert pre + s == s;
    } else {
      assert (pre + s)[0] == pre[0];
      assert (pre + s)[1..] == pre[1..] + s;
      TrimStartPrefix(pre[1..], s);
    }
  }

  /** Trailing whitespace does not change what trimming both ends leaves. */
  lemma {:induction false} TrimStartAppend(x: string, post: string)
    requires forall i :: 0 <= i < |post| ==> IsSpace(post[i])
    ensures TrimEnd(TrimStart(x + post)) == TrimEnd(TrimStart(x) + post)
  {
    if x == [] {
      assert TrimStart(x + post) == TrimStart(post) by { assert x + post == post; }
      assert TrimStart(x) + post == post;
      TrimStartAllSpace(post);
      TrimEndAllSpace(post);
    } else if IsSpace(x[0]) {
      assert TrimStart(x + post) == TrimStart(x[1..] + post) by {
        assert (x + post)[0] == x[0];
        assert (x + post)[1..] == x[1..] + post;
      }
      TrimStartAppend(x[1..], post);
    } else {
      assert TrimStart(x + post) == TrimStart(x) + post by {
        assert (x + post)[0] == x[0];
        TrimStartNoSpace(x + post);
        TrimStartNoSpace(x);
      }
    }
  }

  lemma {:induction false} TrimStartAllSpace(s: string)
    requires forall i :: 0 <= i < |s| ==> IsSpace(s[i])
    ensures TrimStart(s) == []
  {
    if s != [] {
      TrimStartAllSpace(s[1..]);
    }
  }

  lemma {:induction false} TrimEndAllSpace(s: string)
    requires forall i :: 0 <= i < |s| ==> IsSpace(s[i])
    ensures TrimEnd(s) == []
  {
    if s != [] {
      TrimEndAllSpace(s[..|s| - 1]);
    }
  }

  lemma {:induction false} TrimEndSuffix(a: string, post: string)
    requires forall i :: 0 <= i < |post| ==> IsSpace(post[i])
    ensures TrimEnd(a + post) == TrimEnd(a)
  {
    if post != [] {
      assert (a + post)[..|a + post| - 1] == a + post[..|post| - 1];
      TrimEndSuffix(a, post[..|post| - 1]);
    } else {
      assert a + post == a;
    }
  }

  // ---------------------------------------------------------------------------
  // Decimal numbers
  // ---------------------------------------------------------------------------

  function DigitChar(d: nat): (c: char)
    requires d < 10
    ensures IsDigit(c)
  {
    ('0' as int + d) as char
  }

  predicate AllDigits(s: string) { forall i :: 0 <= i < |s| ==> IsDigit(s[i]) }

  /** The decimal rendering of a non-negative integer (template literal `${n}`). */
  function NatToString(n: nat): (r: string)
    ensures r != [] && AllDigits(r)
    decreases n
  {
    if n < 10 then [DigitChar(n)] else NatToString(n / 10) + [DigitChar(n % 10)]
  }

  /** The decimal rendering of an integer, with a minus sign when negative. */
  function IntToString(i: int): (r: string)
    ensures r != []
  {
    if i < 0 then "-" + NatToString(-i) else NatToString(i)
  }

  /** The value of a string of decimal digits. */
  function DigitsValue(s: string): nat
    requires AllDigits(s)
  {
    if s == [] then 0 else DigitsValue(s[..|s| - 1]) * 10 + (s[|s| - 1] as int - '0' as int)
  }

  /** Reading back a rendered number gives the number. */
  lemma {:induction false} NatToStringRoundTrip(n: nat)
    ensures DigitsValue(NatToString(n)) == n
    decreases n
  {
    if n >= 10 {
      var s := NatToString(n);
      assert s[..|s| - 1] == NatToString(n / 10);
      NatToStringRoundTrip(n / 10);
    }
  }

  lemma NatToStringInjective(m: nat, n: nat)
    requires NatToString(m) == NatToString(n)
    ensures m == n
  {
    NatToStringRoundTrip(m);
    NatToStringRoundTrip(n);
  }

  /** The longest prefix of decimal digits. */
  function DigitPrefix(s: string): (r: string)
    ensures AllDigits(r) && |r| <= |s| && r == s[..|r|]
    ensures |r| == |s| || !IsDigit(s[|r|])
  {
    if s != [] && IsDigit(s[0]) then [s[0]] + DigitPrefix(s[1..]) else []
  }

  /**
   * `parseInt(s)` in base ten: leading whitespace, an optional sign, then the
   * longest run of digits; `None` stands for `NaN` (no digit at all).
   */
  function ParseInt(s: string): Option<int> {
    ParseSigned(TrimStart(s))
  }

  /** The optional sign and the digits after it. */
  function ParseSigned(t: string): Option<int> {
    if t != [] && t[0] == '-' then Negated(ParseDigits(t[1..]))
    else if t != [] && t[0] == '+' then ParseDigits(t[1..])
    else ParseDigits(t)
  }

  /** The value of the longest run of digits at the start of `t`, if there is one. */
  function ParseDigits(t: string): Option<int> {
    if DigitPrefix(t) == [] then None else Some(DigitsValue(DigitPrefix(t)))
  }

  function Negated(r: Option<int>): Option<int> {
    if r.Some? then Some(-r.value) else None
  }

  lemma {:induction false} ParseIntOfNat(n: nat, rest: string)
    requires rest == [] || !IsDigit(rest[0])
    ensures ParseInt(NatToString(n) + rest) == Some(n)
  {
    var s := NatToString(n);
    var t := s + rest;
    assert t[0] == s[0];
    TrimStartNoSpace(t);
    DigitPrefixOf(s, rest);
    NatToStringRoundTrip(n);
    assert ParseSigned(t) == ParseDigits(t);
  }

  lemma {:induction false} DigitPrefixOf(s: string, rest: string)
    requires AllDigits(s)
    requires rest == [] || !IsDigit(rest[0])
    ensures DigitPrefix(s + rest) == s
  {
    if s != [] {
      assert (s + rest)[1..] == s[1..] + rest;
      DigitPrefixOf(s[1..], rest);
    } else {
      assert s + rest == rest;
    }
  }

  // ---------------------------------------------------------------------------
  // Substrings
  // ---------------------------------------------------------------------------

  /** The index of the last '.' in `s`, if there is one. */
  function LastDot(s: string): (r: Option<nat>)
    ensures r.Some? ==> r.value < |s| && s[r.value] == '.' && forall i :: r.value < i < |s| ==> s[i] != '.'
    ensures r.None? ==> forall i :: 0 <= i < |s| ==> s[i] != '.'
  {
    LastDotBefore(s, |s|)
  }

  /** The index of the last '.' among the first `n` characters of `s`. */
  function LastDotBefore(s: string, n: nat): (r: Option<nat>)
    requires n <= |s|
    ensures r.Some? ==> r.value < n && s[r.value] == '.' && forall i :: r.value < i < n ==> s[i] != '.'
    ensures r.None? ==> forall i :: 0 <= i < n ==> s[i] != '.'
  {
    if n == 0 then None
    else if s[n - 1] == '.' then Some(n - 1)
    else LastDotBefore(s, n - 1)
  }

  predicate StartsWith(s: string, prefix: string) {
    |prefix| <= |s| && s[..|prefix|] == prefix
  }

  predicate EndsWith(s: string, suffix: string) {
    |suffix| <= |s| && s[|s| - |suffix|..] == suffix
  }

  /** `needle` occurs in `s` starting at index `p`. */
  predicate OccursAt(s: string, needle: string, p: nat) {
    p + |needle| <= |s| && s[p..p + |needle|] == needle
  }
}
