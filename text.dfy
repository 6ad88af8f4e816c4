/** String helpers with the JavaScript and Python meanings the sources rely on:
    whitespace classes, `trim`/`strip`, `includes`/`in`, `split`, `join`, ASCII case
    folding and decimal rendering and parsing of integers. Strings are `seq<char>`. */
module Text {
  import opened Common

  predicate IsDigit(c: char) { '0' <= c <= '9' }

  predicate IsUpper(c: char) { 'A' <= c <= 'Z' }

  function DigitValue(c: char): nat
    requires IsDigit(c)
  {
    c as int - '0' as int
  }

  predicate AllDigits(s: string) { forall i :: 0 <= i < |s| ==> IsDigit(s[i]) }

  /** The characters JavaScript's `\s` and `String.prototype.trim` treat as white space. */
  predicate IsJsWhitespace(c: char)
  {
    c == ' ' || c == '\t' || c == '\n' || c == '\r' || c == '\U{000B}' || c == '\U{000C}'
    || c == '\U{00A0}' || c == '\U{1680}' || ('\U{2000}' <= c <= '\U{200A}')
    || c == '\U{2028}' || c == '\U{2029}' || c == '\U{202F}' || c == '\U{205F}'
    || c == '\U{3000}' || c == '\U{FEFF}'
  }

  /** The characters Python's `str.strip()` and `str.split()` treat as white space. */
  predicate IsPyWhitespace(c: char)
  {
    c == ' ' || c == '\t' || c == '\n' || c == '\r' || c == '\U{000B}' || c == '\U{000C}'
    || ('\U{001C}' <= c <= '\U{001F}') || c == '\U{0085}' || c == '\U{00A0}' || c == '\U{1680}'
    || ('\U{2000}' <= c <= '\U{200A}') || c == '\U{2028}' || c == '\U{2029}' || c == '\U{202F}'
    || c == '\U{205F}' || c == '\U{3000}'
  }

  /** Which notion of white space a trimming function uses. */
  datatype SpaceClass = JsSpace | PySpace

  predicate IsSpace(cls: SpaceClass, c: char)
  {
    match cls
    case JsSpace => IsJsWhitespace(c)
    case PySpace => IsPyWhitespace(c)
  }

  function DropLeading(s: string, cls: SpaceClass): string
    decreases |s|
  {
    if s != [] && IsSpace(cls, s[0]) then DropLeading(s[1..], cls) else s
  }

  function DropTrailing(s: string, cls: SpaceClass): string
    decreases |s|
  {
    if s != [] && IsSpace(cls, s[|s| - 1]) then DropTrailing(s[..|s| - 1], cls) else s
  }

  /** Dropping leading white space removes a white-space prefix and stops at the first
      other character. */
  lemma {:induction false} DropLeadingSpec(s: string, cls: SpaceClass)
    ensures var r := DropLeading(s, cls);
      |r| <= |s| && r == s[|s| - |r|..] && (r != [] ==> !IsSpace(cls, r[0]))
      && forall i :: 0 <= i < |s| - |r| ==> IsSpace(cls, s[i])
    decreases |s|
  {
    if s != [] && IsSpace(cls, s[0]) {
      DropLeadingSpec(s[1..], cls);
      var r := DropLeading(s, cls);
      forall i | 0 <= i < |s| - |r| ensures IsSpace(cls, s[i]) {
        if i > 0 { assert s[i] == s[1..][i - 1]; }
      }
    }
  }

  lemma {:induction false} DropTrailingSpec(s: string, cls: SpaceClass)
    ensures var r := DropTrailing(s, cls);
      |r| <= |s| && r == s[..|r|] && (r != [] ==> !IsSpace(cls, r[|r| - 1]))
      && forall i :: |r| <= i < |s| ==> IsSpace(cls, s[i])
    decreases |s|
  {
    if s != [] && IsSpace(cls, s[|s| - 1]) {
      DropTrailingSpec(s[..|s| - 1], cls);
      var r := DropTrailing(s, cls);
      forall i | |r| <= i < |s| ensures IsSpace(cls, s[i]) {
        if i < |s| - 1 { assert s[i] == s[..|s| - 1][i]; }
      }
    }
  }

  /** `String.prototype.trim`. */
  function JsTrim(s: string): string { DropTrailing(DropLeading(s, JsSpace), JsSpace) }

  /** Python `str.strip()` with no argument. */
  function PyStrip(s: string): string { DropTrailing(DropLeading(s, PySpace), PySpace) }

  /** The string is empty or white space only. */
  predicate IsBlank(s: string) { forall i :: 0 <= i < |s| ==> IsJsWhitespace(s[i]) }

  /** `IsBlank` is the test `!s || s.trim() === ''` of the sources. */
  lemma BlankIffTrimEmpty(s: string)
    ensures IsBlank(s) <==> JsTrim(s) == ""
  {
    var l := DropLeading(s, JsSpace);
    DropLeadingSpec(s, JsSpace);
    DropTrailingSpec(l, JsSpace);
    if l != [] {
      assert l[0] == s[|s| - |l|] && !IsJsWhitespace(l[0]);
    }
  }

  /** `q` occurs in `s` starting at position `i`. */
  predicate OccursAt(s: string, q: string, i: int)
  {
    0 <= i && i + |q| <= |s| && s[i..i + |q|] == q
  }

  /** `s.includes(q)` / Python `q in s`: `q` occurs in `s` as a contiguous block. */
  predicate Contains(s: string, q: string)
  {
    exists i :: 0 <= i <= |s| - |q| && OccursAt(s, q, i)
  }

  lemma ContainsEmpty(s: string)
    ensures Contains(s, "")
  {
    assert OccursAt(s, "", 0);
  }

  lemma ContainsChars(s: string, q: string)
    requires Contains(s, q)
    ensures forall c :: c in q ==> c in s
  {
    var i :| 0 <= i <= |s| - |q| && OccursAt(s, q, i);
    forall c | c in q ensures c in s {
      var k :| 0 <= k < |q| && q[k] == c;
      assert s[i..i + |q|][k] == s[i + k];
    }
  }

  /** A string that lacks one of the characters of `q` does not contain `q`. */
  lemma MissingChar(s: string, q: string, c: char)
    requires c in q && c !in s
    ensures !Contains(s, q)
  {
    var k :| 0 <= k < |q| && q[k] == c;
    forall i | 0 <= i <= |s| - |q| ensures !OccursAt(s, q, i) {
      assert s[i..i + |q|][k] == s[i + k];
    }
  }

  /** ASCII `toLowerCase`; other characters are kept as they are. */
  function LowerChar(c: char): char
  {
    if 'A' <= c <= 'Z' then (c as int + 32) as char else c
  }

  function ToLower(s: string): (r: string)
    ensures |r| == |s| && forall i :: 0 <= i < |s| ==> r[i] == LowerChar(s[i])
  {
    seq(|s|, i requires 0 <= i < |s| => LowerChar(s[i]))
  }

  /** `s.split(sep)` for a one-character separator: the pieces between separators. */
  function Split(s: string, sep: char): seq<string>
  {
    SplitFrom(s, sep, "")
  }

  /** Splitting `s` when the piece read so far is `cur`. */
  function SplitFrom(s: string, sep: char, cur: string): seq<string>
    decreases |s|
  {
    if s == [] then [cur]
    else if s[0] == sep then [cur] + SplitFrom(s[1..], sep, "")
    else SplitFrom(s[1..], sep, cur + [s[0]])
  }

  lemma {:induction false} SplitFromWithoutSeparator(s: string, sep: char, cur: string)
    requires sep !in s
    ensures SplitFrom(s, sep, cur) == [cur + s]
    decreases |s|
  {
    if s != [] {
      assert sep !in s[1..];
      SplitFromWithoutSeparator(s[1..], sep, cur + [s[0]]);
      assert cur + [s[0]] + s[1..] == cur + s;
    } else {
      assert cur + s == cur;
    }
  }

  lemma SplitWithoutSeparator(s: string, sep: char)
    requires sep !in s
    ensures Split(s, sep) == [s]
  {
    SplitFromWithoutSeparator(s, sep, "");
    assert "" + s == s;
  }

  lemma {:induction false} SplitFromPair(a: string, b: string, sep: char, cur: string)
    requires sep !in a && sep !in b
    ensures SplitFrom(a + [sep] + b, sep, cur) == [cur + a, b]
    decreases |a|
  {
    if a == [] {
      assert a + [sep] + b == [sep] + b;
      assert ([sep] + b)[1..] == b;
      SplitWithoutSeparator(b, sep);
      assert cur + a == cur;
    } else {
      assert (a + [sep] + b)[1..] == a[1..] + [sep] + b;
      assert sep !in a[1..];
      SplitFromPair(a[1..], b, sep, cur + [a[0]]);
      assert cur + [a[0]] + a[1..] == cur + a;
    }
  }

  /** Splitting `a + [sep] + b` on `sep`, when neither part holds `sep`, gives back the parts. */
  lemma SplitPair(a: string, b: string, sep: char)
    requires sep !in a && sep !in b
    ensures Split(a + [sep] + b, sep) == [a, b]
  {
    SplitFromPair(a, b, sep, "");
    assert "" + a == a;
  }

  /** `parts.join(sep)`. */
  function Join(parts: seq<string>, sep: string): string
    decreases |parts|
  {
    if parts == [] then ""
    else if |parts| == 1 then parts[0]
    else parts[0] + sep + Join(parts[1..], sep)
  }

  /** Decimal digits of a natural number, most significant first, without leading zeros. */
  function NatToString(n: nat): (r: string)
    ensures r != [] && AllDigits(r)
    ensures n < 10 <==> |r| == 1
    ensures 10 <= n < 100 ==> |r| == 2
    decreases n
  {
    if n < 10 then [('0' as int + n) as char]
    else NatToString(n / 10) + [('0' as int + n % 10) as char]
  }

  /** `Number.prototype.toString()` on an integer. */
  function IntToString(n: int): string
  {
    if n < 0 then "-" + NatToString(-n) else NatToString(n)
  }

  /** `s.padStart(2, '0')`. */
  function PadStart2(s: string): (r: string)
    ensures |s| >= 2 ==> r == s
    ensures |s| < 2 ==> |r| == 2 && r[2 - |s|..] == s
  {
    if |s| >= 2 then s
    else if |s| == 0 then "00"
    else
      var r := ['0', s[0]];
      assert r[1..] == s;
      r
  }

  /** The value of a string of decimal digits (`parseInt` over `\d+`). */
  function DigitsValue(s: string): nat
    requires AllDigits(s)
    decreases |s|
  {
    if s == [] then 0 else DigitsValue(s[..|s| - 1]) * 10 + DigitValue(s[|s| - 1])
  }

  lemma {:induction false} DigitsValueOfNatToString(n: nat)
    ensures DigitsValue(NatToString(n)) == n
    decreases n
  {
    if n >= 10 {
      DigitsValueOfNatToString(n / 10);
      var s := NatToString(n);
      assert s[..|s| - 1] == NatToString(n / 10);
    }
  }

  lemma {:induction false} DigitsValueLeadingZero(s: string)
    requires AllDigits(s)
    ensures AllDigits("0" + s) && DigitsValue("0" + s) == DigitsValue(s)
    decreases |s|
  {
    var z := "0" + s;
    if s != [] {
      assert z[..|z| - 1] == "0" + s[..|s| - 1];
      DigitsValueLeadingZero(s[..|s| - 1]);
    }
  }

  /** Zero-padded decimal rendering has at least two digits (exactly two below 100) and
      reads back as `n`. */
  lemma PaddedReadsBack(n: nat)
    ensures |PadStart2(NatToString(n))| >= 2 && AllDigits(PadStart2(NatToString(n)))
    ensures n < 100 ==> |PadStart2(NatToString(n))| == 2
    ensures DigitsValue(PadStart2(NatToString(n))) == n
  {
    DigitsValueOfNatToString(n);
    if n < 10 { DigitsValueLeadingZero(NatToString(n)); }
  }

  /** Trimming leaves a string alone when its first and last characters are not white space. */
  lemma TrimKeepsUnpadded(s: string)
    requires s != [] && !IsJsWhitespace(s[0]) && !IsJsWhitespace(s[|s| - 1])
    ensures JsTrim(s) == s
  {
    assert !IsSpace(JsSpace, s[0]) && !IsSpace(JsSpace, s[|s| - 1]);
    assert DropLeading(s, JsSpace) == s;
  }

  /** The leftmost position at or after `i` where the anchored matcher `m` succeeds, with
      what it matched: the search a regular expression without the global flag performs. */
  function FindFrom<T>(s: string, i: nat, m: (string, nat) -> Option<T>): Option<(nat, T)>
    decreases |s| + 1 - i
  {
    if i > |s| then None
    else if m(s, i).Some? then Some((i, m(s, i).value))
    else FindFrom(s, i + 1, m)
  }

  lemma {:induction false} FindFromSpec<T>(s: string, i: nat, m: (string, nat) -> Option<T>)
    ensures match FindFrom(s, i, m)
      case Some((j, v)) => i <= j <= |s| && m(s, j) == Some(v) && forall k :: i <= k < j ==> m(s, k).None?
      case None => forall k :: i <= k <= |s| ==> m(s, k).None?
    decreases |s| + 1 - i
  {
    if i <= |s| && m(s, i).None? {
      FindFromSpec(s, i + 1, m);
    }
  }

  /** JavaScript `Number(s)` restricted to what the model supports: after trimming, the
      empty string is 0 and a run of decimal digits is its value; anything else is NaN
      (`None`). */
  function JsNumber(s: string): (r: Option<int>)
    ensures r.Some? ==> r.value >= 0
  {
    var t := JsTrim(s);
    if t == "" then Some(0) else if AllDigits(t) then Some(DigitsValue(t)) else None
  }
}
