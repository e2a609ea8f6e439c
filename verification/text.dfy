/**
  The pieces of JavaScript string behaviour the parsers rely on: the `\d`
  and `.` character classes of a regular expression, `parseInt` on a run of
  decimal digits, `String.prototype.includes`, `String.prototype.trim` and
  `String.prototype.split('\n')`.
*/
module Text {
  import opened Base

  /** The `\d` class of a JavaScript regular expression without the `u` flag. */
  predicate IsDigit(c: char) {
    '0' <= c <= '9'
  }

  predicate AllDigits(s: string) {
    forall i :: 0 <= i < |s| ==> IsDigit(s[i])
  }

  /** The characters a regular-expression `.` refuses to match. */
  predicate IsLineTerminator(c: char) {
    c == '\n' || c == '\r' || c == '\U{2028}' || c == '\U{2029}'
  }

  /**
    The characters `String.prototype.trim` removes: the ECMAScript WhiteSpace
    set (tab, vertical tab, form feed, space, no-break space, byte order mark
    and the Unicode space separators) plus the line terminators.
  */
  predicate IsJsSpace(c: char) {
    || c == '\t' || c == '\U{000B}' || c == '\U{000C}' || c == ' '
    || c == '\U{00A0}' || c == '\U{FEFF}' || c == '\U{1680}'
    || ('\U{2000}' <= c <= '\U{200A}') || c == '\U{202F}' || c == '\U{205F}' || c == '\U{3000}'
    || IsLineTerminator(c)
  }

  /**
    End of the longest stretch starting at `k` whose characters all satisfy
    `keep`: how far a greedy `\d+` or `.*` reaches from `k`.
  */
  function RunEnd(s: string, k: nat, keep: char -> bool): (e: nat)
    requires k <= |s|
    ensures k <= e <= |s|
    ensures forall i :: k <= i < e ==> keep(s[i])
    ensures e == |s| || !keep(s[e])
    decreases |s| - k
  {
    if k == |s| || !keep(s[k]) then k else RunEnd(s, k + 1, keep)
  }

  /** A run ends at the first position, from `k` on, whose character does not satisfy `keep`. */
  lemma RunEndIsFirstStop(s: string, k: nat, e: nat, keep: char -> bool)
    requires k <= e <= |s|
    requires forall i :: k <= i < e ==> keep(s[i])
    requires e == |s| || !keep(s[e])
    ensures RunEnd(s, k, keep) == e
    decreases e - k
  {
    if k < e {
      RunEndIsFirstStop(s, k + 1, e, keep);
    }
  }

  /** End of the run of decimal digits starting at `k` (greedy `\d+`). */
  function DigitRunEnd(s: string, k: nat): (e: nat)
    requires k <= |s|
    ensures k <= e <= |s|
    ensures AllDigits(s[k..e])
    ensures e == |s| || !IsDigit(s[e])
  {
    RunEnd(s, k, IsDigit)
  }

  /** End of the stretch starting at `k` that contains no line terminator (greedy `.*`). */
  function LineEnd(s: string, k: nat): (e: nat)
    requires k <= |s|
    ensures k <= e <= |s|
    ensures forall i :: k <= i < e ==> !IsLineTerminator(s[i])
    ensures e == |s| || IsLineTerminator(s[e])
  {
    RunEnd(s, k, c => !IsLineTerminator(c))
  }

  /** `parseInt` applied to a string of decimal digits. */
  function DecimalValue(ds: string): nat
    requires AllDigits(ds)
  {
    if |ds| == 0 then 0
    else 10 * DecimalValue(ds[..|ds| - 1]) + (ds[|ds| - 1] as int - '0' as int)
  }

  function DigitChar(d: nat): (c: char)
    requires d < 10
    ensures IsDigit(c) && c as int - '0' as int == d
  {
    (d + '0' as int) as char
  }

  /** The decimal rendering of a natural number, as a template literal prints it. */
  function NatToDigits(n: nat): (ds: string)
    ensures |ds| > 0 && AllDigits(ds)
  {
    if n < 10 then [DigitChar(n)] else NatToDigits(n / 10) + [DigitChar(n % 10)]
  }

  /** Parsing the printed form of a number gives the number back. */
  lemma {:induction false} DecimalValueOfNatToDigits(n: nat)
    ensures DecimalValue(NatToDigits(n)) == n
  {
    var ds := NatToDigits(n);
    if n >= 10 {
      DecimalValueOfNatToDigits(n / 10);
      assert ds[..|ds| - 1] == NatToDigits(n / 10);
    }
  }

  /** `needle` occurs in `s` starting at position `i`. */
  predicate OccursAt(s: string, needle: string, i: int) {
    0 <= i && i + |needle| <= |s| && s[i..i + |needle|] == needle
  }

  /** A concatenation occurs at `p` exactly when its two parts occur there one after the other. */
  lemma OccursConcat(s: string, p: nat, x: string, y: string)
    ensures OccursAt(s, x + y, p) <==> OccursAt(s, x, p) && OccursAt(s, y, p + |x|)
  {
    if OccursAt(s, x + y, p) {
      var whole := s[p..p + |x + y|];
      assert s[p..p + |x|] == whole[..|x|] == x;
      assert s[p + |x|..p + |x| + |y|] == whole[|x|..] == y;
    }
    if OccursAt(s, x, p) && OccursAt(s, y, p + |x|) {
      assert s[p..p + |x + y|] == s[p..p + |x|] + s[p + |x|..p + |x| + |y|];
    }
  }

  /** The middle of `x + m + y` is `m`, found right after `x`, and followed by `y`'s first character. */
  lemma OccursInMiddle(x: string, m: string, y: string)
    ensures OccursAt(x + m + y, m, |x|)
    ensures (x + m + y)[..|x|] == x
    ensures |x| + |m| == |x + m + y| || (x + m + y)[|x| + |m|] == y[0]
  {
    var s := x + m + y;
    assert s[|x|..|x| + |m|] == m;
    assert s[..|x|] == x;
  }

  /** A digit string found at `k` and not followed by a digit is the whole digit run from `k`. */
  lemma DigitRunOf(s: string, k: nat, d: string)
    requires OccursAt(s, d, k) && AllDigits(d)
    requires k + |d| == |s| || !IsDigit(s[k + |d|])
    ensures DigitRunEnd(s, k) == k + |d|
  {
    forall i | k <= i < k + |d|
      ensures IsDigit(s[i])
    {
      assert s[i] == s[k..k + |d|][i - k] == d[i - k];
    }
    RunEndIsFirstStop(s, k, k + |d|, IsDigit);
  }

  /** `s.includes(needle)`. */
  function Contains(s: string, needle: string): (r: bool)
    ensures r <==> exists i :: OccursAt(s, needle, i)
    decreases |s|
  {
    if |s| < |needle| then
      assert forall i :: !OccursAt(s, needle, i);
      false
    else if s[..|needle|] == needle then
      assert OccursAt(s, needle, 0);
      true
    else
      ContainsShift(s, needle);
      Contains(s[1..], needle)
  }

  /** Occurrences in `s` past its first position are the occurrences in `s[1..]`, shifted by one. */
  lemma ContainsShift(s: string, needle: string)
    requires |s| > 0 && !OccursAt(s, needle, 0)
    ensures (exists i :: OccursAt(s, needle, i)) <==> (exists i :: OccursAt(s[1..], needle, i))
  {
    if i :| OccursAt(s, needle, i) {
      assert s[1..][i - 1..i - 1 + |needle|] == s[i..i + |needle|];
      assert OccursAt(s[1..], needle, i - 1);
    }
    if i :| OccursAt(s[1..], needle, i) {
      assert s[1..][i..i + |needle|] == s[i + 1..i + 1 + |needle|];
      assert OccursAt(s, needle, i + 1);
    }
  }

  /** Every character of `s` is white space to `trim`. */
  predicate AllSpace(s: string) {
    forall i :: 0 <= i < |s| ==> IsJsSpace(s[i])
  }

  /** `s.trimStart()`: the suffix left after dropping leading white space. */
  function TrimStart(s: string): (r: string)
    ensures |r| <= |s| && r == s[|s| - |r|..]
    ensures AllSpace(s[..|s| - |r|])
    ensures r == [] || !IsJsSpace(r[0])
  {
    if |s| > 0 && IsJsSpace(s[0]) then
      var r := TrimStart(s[1..]);
      assert s[..|s| - |r|] == [s[0]] + s[1..][..|s| - 1 - |r|];
      r
    else s
  }

  /** `s.trimEnd()`: the prefix left after dropping trailing white space. */
  function TrimEnd(s: string): (r: string)
    ensures |r| <= |s| && r == s[..|r|]
    ensures AllSpace(s[|r|..])
    ensures r == [] || !IsJsSpace(r[|r| - 1])
  {
    if |s| > 0 && IsJsSpace(s[|s| - 1]) then
      var r := TrimEnd(s[..|s| - 1]);
      assert s[|r|..] == s[..|s| - 1][|r|..] + [s[|s| - 1]];
      r
    else s
  }

  /** `r` sits at position `a` of `s`, with only white space before and after it. */
  predicate SurroundedBySpace(s: string, r: string, a: int) {
    && 0 <= a <= |s| - |r| && s[a..a + |r|] == r
    && AllSpace(s[..a]) && AllSpace(s[a + |r|..])
  }

  /**
    `s.trim()`: the piece of `s` between its leading and its trailing white
    space, which neither starts nor ends with white space.
  */
  function Trim(s: string): (r: string)
    ensures exists a :: SurroundedBySpace(s, r, a)
    ensures r == [] || (!IsJsSpace(r[0]) && !IsJsSpace(r[|r| - 1]))
  {
    var t := TrimStart(s);
    var r := TrimEnd(t);
    var a := |s| - |t|;
    assert t == s[a..];
    assert s[a..a + |r|] == r;
    assert s[a + |r|..] == t[|r|..];
    assert SurroundedBySpace(s, r, a);
    assert r != [] ==> r[0] == t[0];
    r
  }

  /** Rejoins lines with `'\n'`, the inverse of `SplitLines`. */
  function JoinLines(lines: seq<string>): string
    requires |lines| > 0
  {
    if |lines| == 1 then lines[0] else lines[0] + "\n" + JoinLines(lines[1..])
  }

  /** `s.split('\n')`: at least one piece, none holding a newline, and they join back to `s`. */
  function SplitLines(s: string): (lines: seq<string>)
    ensures |lines| > 0
    ensures forall i :: 0 <= i < |lines| ==> '\n' !in lines[i]
    ensures JoinLines(lines) == s
    decreases |s|
  {
    match FindFirst(s, c => c == '\n')
    case None => [s]
    case Some(k) =>
      var rest := SplitLines(s[k + 1..]);
      assert s == s[..k] + "\n" + s[k + 1..];
      [s[..k]] + rest
  }

  /** Splitting the joined lines gives the same lines back, when none of them holds a newline. */
  lemma {:induction false} SplitJoinLines(lines: seq<string>)
    requires |lines| > 0
    requires forall i :: 0 <= i < |lines| ==> '\n' !in lines[i]
    ensures SplitLines(JoinLines(lines)) == lines
  {
    var s := JoinLines(lines);
    if |lines| == 1 {
      assert forall j :: 0 <= j < |s| ==> s[j] != '\n';
    } else {
      var head := lines[0];
      var tail := JoinLines(lines[1..]);
      assert s == head + "\n" + tail;
      assert forall j :: 0 <= j < |head| ==> s[j] != '\n';
      assert s[|head|] == '\n';
      assert FindFirst(s, c => c == '\n') == Some(|head|);
      assert s[..|head|] == head;
      assert s[|head| + 1..] == tail;
      SplitJoinLines(lines[1..]);
    }
  }
}
