/** The string primitives the scraper borrows from Python: ASCII character
    classes, `str.strip`, `str.split(sep)[-1]`, `str.join`, `str.replace` for
    one character, and the decimal numerals read by `int()` and written by
    f-strings. Characters outside ASCII belong to none of the classes here. */
module Text {
  import opened Wrappers

  // ---------------------------------------------------------------------
  // Character classes
  // ---------------------------------------------------------------------

  /** `str.isspace()` on ASCII: tab, line feed, vertical tab, form feed,
      carriage return, the four separators 0x1C-0x1F, and space. This is
      also what the regular-expression class `\s` matches. */
  predicate IsSpace(c: char) {
    9 <= c as int <= 13 || 28 <= c as int <= 32
  }

  predicate IsUpper(c: char) { 'A' <= c <= 'Z' }

  predicate IsLower(c: char) { 'a' <= c <= 'z' }

  /** A cased character in the sense of `str.title()`. */
  predicate IsLetter(c: char) { IsUpper(c) || IsLower(c) }

  predicate IsDigit(c: char) { '0' <= c <= '9' }

  /** The regular-expression class `\w` on ASCII. */
  predicate IsWord(c: char) { IsLetter(c) || IsDigit(c) || c == '_' }

  function Upper(c: char): (r: char)
    ensures IsLetter(c) ==> IsUpper(r) && Lower(r) == Lower(c)
    ensures !IsLower(c) ==> r == c
  {
    if IsLower(c) then (c as int - 32) as char else c
  }

  function Lower(c: char): (r: char)
    ensures IsLetter(c) ==> IsLower(r)
    ensures !IsUpper(c) ==> r == c
  {
    if IsUpper(c) then (c as int + 32) as char else c
  }

  /** `str.lower()` on ASCII. */
  function LowerAll(s: string): (r: string)
    ensures |r| == |s|
    ensures forall k :: 0 <= k < |s| ==> r[k] == Lower(s[k])
  {
    seq(|s|, k requires 0 <= k < |s| => Lower(s[k]))
  }

  /** Text without upper-case letters is its own lower-casing. */
  lemma LowerAllKeepsLower(s: string)
    requires forall k :: 0 <= k < |s| ==> !IsUpper(s[k])
    ensures LowerAll(s) == s
  {
  }

  // ---------------------------------------------------------------------
  // Stripping: `str.lstrip`, `str.rstrip`, `str.strip`
  // ---------------------------------------------------------------------

  /** Removes the longest prefix whose characters all satisfy `drop`. */
  function LStrip(s: string, drop: char -> bool): (r: string)
    decreases |s|
    ensures |r| <= |s| && r == s[|s| - |r|..]
    ensures forall k :: 0 <= k < |s| - |r| ==> drop(s[k])
    ensures r != [] ==> !drop(r[0])
  {
    if s != [] && drop(s[0]) then LStrip(s[1..], drop) else s
  }

  /** Removes the longest suffix whose characters all satisfy `drop`. */
  function RStrip(s: string, drop: char -> bool): (r: string)
    decreases |s|
    ensures |r| <= |s| && r == s[..|r|]
    ensures forall k :: |r| <= k < |s| ==> drop(s[k])
    ensures r != [] ==> !drop(r[|r| - 1])
  {
    if s != [] && drop(s[|s| - 1]) then RStrip(s[..|s| - 1], drop) else s
  }

  /** `str.strip(chars)` for the characters satisfying `drop`. */
  function StripBy(s: string, drop: char -> bool): string {
    RStrip(LStrip(s, drop), drop)
  }

  /** `str.strip()`: surrounding whitespace removed. */
  function Strip(s: string): string {
    StripBy(s, IsSpace)
  }

  /** `r` is `s[i..j]` and every character cut off on either side is
      droppable. */
  ghost predicate CutFrom(s: string, r: string, drop: char -> bool, i: int, j: int) {
    && 0 <= i <= j <= |s| && r == s[i..j]
    && (forall k :: 0 <= k < i ==> drop(s[k]))
    && (forall k :: j <= k < |s| ==> drop(s[k]))
  }

  /** A prefix of a droppable-trimmed suffix is a cut of the whole. */
  lemma CutOfSuffixPrefix(s: string, l: string, r: string, drop: char -> bool)
    requires |l| <= |s| && l == s[|s| - |l|..]
    requires |r| <= |l| && r == l[..|r|]
    requires forall k :: 0 <= k < |s| - |l| ==> drop(s[k])
    requires forall k :: |r| <= k < |l| ==> drop(l[k])
    ensures CutFrom(s, r, drop, |s| - |l|, |s| - |l| + |r|)
  {
    var i := |s| - |l|;
    forall k | i + |r| <= k < |s|
      ensures drop(s[k])
    {
      assert s[k] == l[k - i];
    }
  }

  /** The positions where `StripBy` cuts `s`. */
  lemma StripByCut(s: string, drop: char -> bool) returns (i: int, j: int)
    ensures CutFrom(s, StripBy(s, drop), drop, i, j)
  {
    var l := LStrip(s, drop);
    var r := RStrip(l, drop);
    assert StripBy(s, drop) == r;
    i, j := |s| - |l|, |s| - |l| + |r|;
    CutOfSuffixPrefix(s, l, r, drop);
  }

  /** What `StripBy` keeps is a contiguous piece of the input, everything cut
      off on either side is droppable, and the piece neither starts nor ends
      with a droppable character. */
  lemma StripBySlice(s: string, drop: char -> bool)
    ensures var r := StripBy(s, drop);
            && (exists i, j :: CutFrom(s, r, drop, i, j))
            && (r != [] ==> !drop(r[0]) && !drop(r[|r| - 1]))
  {
    var i, j := StripByCut(s, drop);
    var l := LStrip(s, drop);
    var r := RStrip(l, drop);
    if r != [] {
      assert r[0] == l[0];
    }
  }

  /** Stripping twice strips nothing more. */
  lemma {:induction false} StripByIdempotent(s: string, drop: char -> bool)
    ensures StripBy(StripBy(s, drop), drop) == StripBy(s, drop)
  {
    var r := StripBy(s, drop);
    if r != [] {
      assert LStrip(r, drop) == r;
      assert RStrip(r, drop) == r;
    }
  }

  /** Text that neither starts nor ends with a droppable character is left
      alone. */
  lemma StripByKeepsTrimmed(s: string, drop: char -> bool)
    requires s != [] ==> !drop(s[0]) && !drop(s[|s| - 1])
    ensures StripBy(s, drop) == s
  {
  }

  /** Text that neither starts nor ends with whitespace is left alone by
      `strip()`. */
  lemma StripKeepsTrimmed(s: string)
    requires s != [] ==> !IsSpace(s[0]) && !IsSpace(s[|s| - 1])
    ensures Strip(s) == s
  {
  }

  /** Whitespace-stripped text neither starts nor ends with whitespace. */
  lemma StripHasNoEdgeSpace(s: string)
    ensures var r := Strip(s);
            r != [] ==> !IsSpace(r[0]) && !IsSpace(r[|r| - 1])
  {
    StripBySlice(s, IsSpace);
  }

  // ---------------------------------------------------------------------
  // Substring search and `str.split(sep)[-1]`
  // ---------------------------------------------------------------------

  /** `sub` occurs in `s` starting at index `k`. */
  predicate OccursAt(s: string, sub: string, k: int) {
    0 <= k && k + |sub| <= |s| && s[k..k + |sub|] == sub
  }

  /** The first occurrence of `sub` at or after index `i`. */
  function FindFrom(s: string, sub: string, i: nat): (r: Option<nat>)
    decreases |s| - i
    ensures r.Some? ==> i <= r.value && OccursAt(s, sub, r.value)
                        && forall k :: i <= k < r.value ==> !OccursAt(s, sub, k)
    ensures r.None? ==> forall k :: i <= k ==> !OccursAt(s, sub, k)
  {
    if i + |sub| > |s| then None
    else if s[i..i + |sub|] == sub then Some(i)
    else FindFrom(s, sub, i + 1)
  }

  /** Python's `sub in s`. */
  predicate Contains(s: string, sub: string) {
    FindFrom(s, sub, 0).Some?
  }

  lemma ContainsIff(s: string, sub: string)
    ensures Contains(s, sub) <==> exists k :: OccursAt(s, sub, k)
  {
  }

  /** A one-character string occurs exactly where that character is. */
  lemma OccursAtChar(s: string, c: char, k: int)
    ensures OccursAt(s, [c], k) <==> 0 <= k < |s| && s[k] == c
  {
    if 0 <= k < |s| {
      assert s[k..k + 1][0] == s[k];
    }
  }

  /** `c in s` for a one-character string `c`. */
  lemma ContainsChar(s: string, c: char)
    ensures Contains(s, [c]) <==> exists k :: 0 <= k < |s| && s[k] == c
  {
    ContainsIff(s, [c]);
    forall k
      ensures OccursAt(s, [c], k) <==> 0 <= k < |s| && s[k] == c
    {
      OccursAtChar(s, c, k);
    }
  }

  /** Where the last piece of `s.split(sep)` starts when the scan resumes at
      index `i`: the split looks for the next occurrence, continues just
      after it, and stops when there is none. */
  function LastPieceStart(s: string, sep: string, i: nat): (r: nat)
    requires sep != [] && i <= |s|
    decreases |s| - i
    ensures i <= r <= |s|
    ensures forall k :: r <= k ==> !OccursAt(s, sep, k)
    ensures FindFrom(s, sep, i).None? ==> r == i
    ensures FindFrom(s, sep, i).Some? ==> i + |sep| <= r && OccursAt(s, sep, r - |sep|)
  {
    match FindFrom(s, sep, i)
    case None => i
    case Some(j) => LastPieceStart(s, sep, j + |sep|)
  }

  /** `s.split(sep)[-1]`: the whole string when `sep` does not occur in it,
      and otherwise the text after an occurrence, itself free of `sep`. */
  function LastPiece(s: string, sep: string): (r: string)
    requires sep != []
    ensures |r| <= |s| && r == s[|s| - |r|..]
    ensures !Contains(s, sep) ==> r == s
    ensures Contains(s, sep) ==> OccursAt(s, sep, |s| - |r| - |sep|)
  {
    s[LastPieceStart(s, sep, 0)..]
  }

  /** The last piece of a split never contains the separator. */
  lemma LastPieceHasNoSep(s: string, sep: string)
    requires sep != []
    ensures !Contains(LastPiece(s, sep), sep)
  {
    var p := LastPieceStart(s, sep, 0);
    var r := s[p..];
    forall k | OccursAt(r, sep, k)
      ensures false
    {
      assert s[p + k..p + k + |sep|] == r[k..k + |sep|];
      assert OccursAt(s, sep, p + k);
    }
  }

  /** No proper suffix of `sep` is also a prefix of it, so two occurrences
      of `sep` can never overlap. */
  predicate NoSelfOverlap(sep: string) {
    forall d :: 0 < d < |sep| ==> sep[d..] != sep[..|sep| - d]
  }

  /** Two overlapping occurrences of `sep` make a suffix of `sep` equal to a
      prefix of it. */
  lemma OverlapIsBorder(s: string, sep: string, i: int, j: int)
    requires OccursAt(s, sep, i) && OccursAt(s, sep, j) && i < j < i + |sep|
    ensures sep[j - i..] == sep[..|sep| - (j - i)]
  {
    var d := j - i;
    assert sep[d..] == s[j..i + |sep|];
    assert s[j..i + |sep|] == sep[..|sep| - d];
  }

  /** Two occurrences of a separator that cannot overlap itself are at least
      its length apart. */
  lemma OccurrencesApart(s: string, sep: string, i: int, j: int)
    requires NoSelfOverlap(sep)
    requires OccursAt(s, sep, i) && OccursAt(s, sep, j) && i < j
    ensures i + |sep| <= j
  {
    if j < i + |sep| {
      OverlapIsBorder(s, sep, i, j);
      assert false;
    }
  }

  /** For a separator that cannot overlap itself, the scan resumed at `i`
      ends just after the occurrence at `p - |sep|` when none starts at or
      after `p`. */
  lemma LastPieceStartAt(s: string, sep: string, i: nat, p: nat)
    requires sep != [] && NoSelfOverlap(sep)
    requires i + |sep| <= p <= |s| && OccursAt(s, sep, p - |sep|)
    requires forall k :: p <= k ==> !OccursAt(s, sep, k)
    ensures LastPieceStart(s, sep, i) == p
  {
    var q := p - |sep|;
    var r := LastPieceStart(s, sep, i);
    assert FindFrom(s, sep, i).Some?;
    var o := r - |sep|;
    assert OccursAt(s, sep, o);
    if r < p {
      OccurrencesApart(s, sep, o, q);
      assert false;
    } else if r > p {
      OccurrencesApart(s, sep, q, o);
      assert false;
    }
  }

  /** When `sep` cannot overlap itself and does not occur in `b`, the last
      piece of `a + sep + b` is `b`. */
  lemma LastPieceAfter(a: string, sep: string, b: string)
    requires sep != [] && NoSelfOverlap(sep)
    requires !Contains(b, sep)
    ensures LastPiece(a + sep + b, sep) == b
  {
    var s := a + sep + b;
    var p := |a| + |sep|;
    assert s[p - |sep|..p] == sep;
    forall k | p <= k && OccursAt(s, sep, k)
      ensures OccursAt(b, sep, k - p)
    {
      assert b[k - p..k - p + |sep|] == s[k..k + |sep|];
    }
    LastPieceStartAt(s, sep, 0, p);
    assert s[p..] == b;
  }

  // ---------------------------------------------------------------------
  // `str.replace(old, new)` for single characters, and `sep.join(parts)`
  // ---------------------------------------------------------------------

  function ReplaceChar(s: string, from: char, to: char): (r: string)
    ensures |r| == |s|
    ensures forall k :: 0 <= k < |s| ==> r[k] == (if s[k] == from then to else s[k])
  {
    seq(|s|, k requires 0 <= k < |s| => if s[k] == from then to else s[k])
  }

  function Join(parts: seq<string>, sep: string): string
    decreases |parts|
  {
    if |parts| == 0 then ""
    else if |parts| == 1 then parts[0]
    else parts[0] + sep + Join(parts[1..], sep)
  }

  /** Joining parts that are all non-empty gives the empty string exactly when
      there are no parts; otherwise the result starts with the first character
      of the first part and ends with the last character of the last part. */
  lemma {:induction false} JoinEnds(parts: seq<string>, sep: string)
    requires forall k :: 0 <= k < |parts| ==> parts[k] != ""
    ensures Join(parts, sep) == "" <==> parts == []
    ensures parts != [] ==> var r, last := Join(parts, sep), parts[|parts| - 1];
                            r[0] == parts[0][0] && r[|r| - 1] == last[|last| - 1]
    decreases |parts|
  {
    if |parts| > 1 {
      var rest := parts[1..];
      assert Join(parts, sep) == parts[0] + sep + Join(rest, sep);
      assert rest[|rest| - 1] == parts[|parts| - 1];
      JoinEnds(rest, sep);
    }
  }

  // ---------------------------------------------------------------------
  // Decimal numerals: f"{n}" and `int(s)` restricted to ASCII digits
  // ---------------------------------------------------------------------

  predicate IsDecimal(s: string) {
    |s| > 0 && forall k :: 0 <= k < |s| ==> IsDigit(s[k])
  }

  function DigitChar(d: nat): (c: char)
    requires d < 10
    ensures IsDigit(c) && c as int - '0' as int == d
  {
    ('0' as int + d) as char
  }

  function DigitValue(c: char): (d: nat)
    requires IsDigit(c)
    ensures d < 10 && DigitChar(d) == c
  {
    c as int - '0' as int
  }

  /** The value of a string of digits, most significant first; leading zeros
      are allowed, as `int()` allows them. */
  function DecimalValue(s: string): nat
    requires forall k :: 0 <= k < |s| ==> IsDigit(s[k])
    decreases |s|
  {
    if s == [] then 0 else DecimalValue(s[..|s| - 1]) * 10 + DigitValue(s[|s| - 1])
  }

  /** CPython's default limit on the number of digits `int()` converts from a
      decimal string (`sys.int_info.default_max_str_digits`, from 3.11 on). */
  const MaxStrDigits := 4300

  /** `int(s)`: the value of a non-empty string of ASCII digits no longer than
      `MaxStrDigits`, and `None` where Python raises `ValueError`. */
  function ParseDecimal(s: string): Option<nat> {
    if IsDecimal(s) && |s| <= MaxStrDigits then Some(DecimalValue(s)) else None
  }

  /** `str(n)` for a natural number: no leading zero. */
  function ToDecimal(n: nat): (r: string)
    decreases n
  {
    if n < 10 then [DigitChar(n)] else ToDecimal(n / 10) + [DigitChar(n % 10)]
  }

  /** `int(str(n)) == n` whenever `str(n)` is within the digit limit, and
      `ValueError` beyond it; `str(n)` is a non-empty digit string whose first
      digit is zero only for zero itself. */
  lemma {:induction false} DecimalRoundTrip(n: nat)
    ensures IsDecimal(ToDecimal(n)) && DecimalValue(ToDecimal(n)) == n
    ensures ParseDecimal(ToDecimal(n)) == if |ToDecimal(n)| <= MaxStrDigits then Some(n) else None
    ensures ToDecimal(n)[0] == '0' ==> n == 0
    decreases n
  {
    var r := ToDecimal(n);
    if n < 10 {
      assert r[..|r| - 1] == [];
    } else {
      var q := ToDecimal(n / 10);
      DecimalRoundTrip(n / 10);
      assert r[..|r| - 1] == q;
      assert r[0] == q[0];
      assert DecimalValue(r) == DecimalValue(q) * 10 + n % 10;
    }
  }

  /** A number `int()` accepts prints back in no more digits than it was read
      from, so `str()` of it is within the digit limit too. */
  lemma {:induction false} ParsedPrintsShort(s: string, n: nat)
    requires ParseDecimal(s) == Some(n)
    ensures |ToDecimal(n)| <= |s| <= MaxStrDigits
  {
    DigitsPrintShort(s);
  }

  lemma {:induction false} DigitsPrintShort(s: string)
    requires IsDecimal(s)
    ensures |ToDecimal(DecimalValue(s))| <= |s|
    decreases |s|
  {
    var init := s[..|s| - 1];
    var v := DecimalValue(init);
    var n := DecimalValue(s);
    if v != 0 {
      DigitsPrintShort(init);
      assert n / 10 == v && n >= 10;
      assert ToDecimal(n) == ToDecimal(v) + [DigitChar(n % 10)];
    }
  }

  /** A smaller number never has more digits. */
  lemma {:induction false} ToDecimalMonotone(m: nat, n: nat)
    requires m <= n
    ensures |ToDecimal(m)| <= |ToDecimal(n)|
    decreases n
  {
    if m >= 10 {
      ToDecimalMonotone(m / 10, n / 10);
    }
  }

  /** Distinct numbers have distinct numerals. */
  lemma ToDecimalInjective(m: nat, n: nat)
    requires ToDecimal(m) == ToDecimal(n)
    ensures m == n
  {
    DecimalRoundTrip(m);
    DecimalRoundTrip(n);
  }
}
