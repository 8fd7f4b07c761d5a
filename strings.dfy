/**
 * The JavaScript string built-ins the core relies on: `toLowerCase`, the
 * regular-expression class `\s`, `trim`, `split(/\s+/)` and `includes`, and the
 * decimal rendering of a number inside a template literal.
 */
module Strings {

  /** The ECMAScript WhiteSpace and LineTerminator characters: the class `\s`,
      and what `trim` removes. */
  predicate IsSpace(c: char) {
    c == '\t' || c == '\n' || c == '\U{000B}' || c == '\U{000C}' || c == '\r' || c == ' '
    || c == '\U{00A0}' || c == '\U{1680}' || ('\U{2000}' <= c <= '\U{200A}')
    || c == '\U{2028}' || c == '\U{2029}' || c == '\U{202F}' || c == '\U{205F}'
    || c == '\U{3000}' || c == '\U{FEFF}'
  }

  predicate NoSpace(s: string) {
    forall i :: 0 <= i < |s| ==> !IsSpace(s[i])
  }

  predicate Blank(s: string) {
    forall i :: 0 <= i < |s| ==> IsSpace(s[i])
  }

  /** Upper-case letters A–Z and U+0400–U+042F (Ѐ–Я). */
  predicate IsUpper(c: char) {
    ('A' <= c <= 'Z') || ('\U{0400}' <= c <= '\U{042F}')
  }

  /** `toLowerCase` on one character, for Basic Latin and Cyrillic
      (А..Я to а..я, Ѐ..Џ, among them Ё, to ѐ..џ); every other character is kept. */
  function LowerChar(c: char): (d: char)
    ensures !IsUpper(d)
    ensures IsUpper(c) <==> d != c
  {
    if 'A' <= c <= 'Z' then (c as int + 32) as char
    else if '\U{0410}' <= c <= '\U{042F}' then (c as int + 32) as char
    else if '\U{0400}' <= c <= '\U{040F}' then (c as int + 80) as char
    else c
  }

  /** `s.toLowerCase()`, character by character. */
  function ToLower(s: string): (r: string)
    ensures |r| == |s|
  {
    seq(|s|, i requires 0 <= i < |s| => LowerChar(s[i]))
  }

  lemma LowerCharIdempotent(c: char)
    ensures LowerChar(LowerChar(c)) == LowerChar(c)
  {
  }

  /** Lower-casing twice is lower-casing once. */
  lemma ToLowerIdempotent(s: string)
    ensures ToLower(ToLower(s)) == ToLower(s)
  {
    var t := ToLower(s);
    forall i | 0 <= i < |s|
      ensures ToLower(t)[i] == t[i]
    {
      LowerCharIdempotent(s[i]);
    }
  }

  /** A text without upper-case letters is its own lower-case form. */
  lemma ToLowerOfLower(s: string)
    requires forall i :: 0 <= i < |s| ==> !IsUpper(s[i])
    ensures ToLower(s) == s
  {
    forall i | 0 <= i < |s|
      ensures ToLower(s)[i] == s[i]
    {
      assert LowerChar(s[i]) == s[i];
    }
  }

  /** `sub` occurs in `s` starting at index `i`. */
  ghost predicate OccursAt(s: string, sub: string, i: int) {
    0 <= i && i + |sub| <= |s| && s[i..i + |sub|] == sub
  }

  lemma OccursShiftAt(s: string, sub: string, i: int)
    requires s != [] && 0 <= i
    ensures OccursAt(s[1..], sub, i) <==> OccursAt(s, sub, i + 1)
  {
    if 0 <= i && i + |sub| <= |s| - 1 {
      assert s[1..][i..i + |sub|] == s[i + 1..i + 1 + |sub|];
    }
  }

  /** Past a mismatch at index 0, `sub` occurs in `s` exactly when it occurs in `s[1..]`. */
  lemma OccursStep(s: string, sub: string)
    requires s != [] && !OccursAt(s, sub, 0)
    ensures (exists i :: OccursAt(s, sub, i)) <==> (exists i :: OccursAt(s[1..], sub, i))
  {
    if i :| OccursAt(s, sub, i) {
      OccursShiftAt(s, sub, i - 1);
    }
    if i :| OccursAt(s[1..], sub, i) {
      OccursShiftAt(s, sub, i);
    }
  }

  /** `s.includes(sub)`: some contiguous slice of `s` equals `sub`. */
  function Includes(s: string, sub: string): (r: bool)
    ensures r <==> exists i :: OccursAt(s, sub, i)
    decreases |s|
  {
    if |sub| > |s| then false
    else if s[..|sub|] == sub then assert OccursAt(s, sub, 0); true
    else
      OccursStep(s, sub);
      Includes(s[1..], sub)
  }

  /** Length of the leading run of non-space characters of `s`. */
  function RunLength(s: string): (n: nat)
    ensures n <= |s|
    ensures forall i :: 0 <= i < n ==> !IsSpace(s[i])
    ensures n < |s| ==> IsSpace(s[n])
  {
    if s == [] || IsSpace(s[0]) then 0 else 1 + RunLength(s[1..])
  }

  lemma OccursInSuffix(s: string, k: nat, w: string, i: int)
    requires k <= |s| && OccursAt(s[k..], w, i)
    ensures OccursAt(s, w, i + k)
  {
    assert s[k..][i..i + |w|] == s[i + k..i + k + |w|];
  }

  /** `s.split(/\s+/).filter(w => w.length > 0)`: the maximal runs of
      non-space characters of `s`, in order. Each is non-empty, holds no
      space and is a slice of `s`. */
  function Words(s: string): (ws: seq<string>)
    ensures forall k :: 0 <= k < |ws| ==> ws[k] != [] && NoSpace(ws[k]) && Includes(s, ws[k])
    decreases |s|
  {
    if s == [] then []
    else if IsSpace(s[0]) then
      var rest := Words(s[1..]);
      assert forall k :: 0 <= k < |rest| ==> Includes(s, rest[k]) by {
        forall k | 0 <= k < |rest|
          ensures Includes(s, rest[k])
        {
          var i :| OccursAt(s[1..], rest[k], i);
          OccursInSuffix(s, 1, rest[k], i);
        }
      }
      rest
    else
      var n := RunLength(s);
      var rest := Words(s[n..]);
      assert OccursAt(s, s[..n], 0);
      assert forall k :: 0 <= k < |rest| ==> Includes(s, rest[k]) by {
        forall k | 0 <= k < |rest|
          ensures Includes(s, rest[k])
        {
          var i :| OccursAt(s[n..], rest[k], i);
          OccursInSuffix(s, n, rest[k], i);
        }
      }
      [s[..n]] + rest
  }

  lemma {:induction false} RunLengthOfWord(w: string, rest: string)
    requires NoSpace(w)
    requires rest == [] || IsSpace(rest[0])
    ensures RunLength(w + rest) == |w|
  {
    if w == [] {
      assert w + rest == rest;
    } else {
      assert (w + rest)[1..] == w[1..] + rest;
      RunLengthOfWord(w[1..], rest);
    }
  }

  /** A word followed by a space (or by nothing) is the first token. */
  lemma WordsCons(w: string, rest: string)
    requires w != [] && NoSpace(w)
    requires rest == [] || IsSpace(rest[0])
    ensures Words(w + rest) == [w] + Words(rest)
  {
    var s := w + rest;
    RunLengthOfWord(w, rest);
    assert s[..|w|] == w && s[|w|..] == rest;
  }

  /** How far `Words` steps past the head of `s`: one whitespace character,
      or the whole leading word. */
  function Skip(s: string): (n: nat)
    requires s != []
    ensures 0 < n <= |s|
  {
    if IsSpace(s[0]) then 1 else RunLength(s)
  }

  /** One step of `Words`: the leading word, if any, then the words past it. */
  lemma WordsSkip(s: string)
    requires s != []
    ensures Words(s) == (if IsSpace(s[0]) then [] else [s[..Skip(s)]]) + Words(s[Skip(s)..])
  {
  }

  /** A slice of a suffix is a slice of the whole. */
  lemma SliceOfSuffix(s: string, n: nat, i: nat, j: nat)
    requires n <= |s| && i <= j <= |s| - n
    ensures s[n..][i..j] == s[n + i..n + j]
  {
    forall m | 0 <= m < j - i
      ensures s[n..][i..j][m] == s[n + i..n + j][m]
    {
    }
  }

  /** A word bounded by whitespace at `k > 0` stays so bounded, at `k - Skip(s)`, past the head of `s`. */
  lemma WordAtSkip(s: string, k: nat, w: string)
    requires 0 < k && k + |w| <= |s| && s[k..k + |w|] == w
    requires IsSpace(s[k - 1])
    requires k + |w| == |s| || IsSpace(s[k + |w|])
    ensures Skip(s) <= k
    ensures var t := s[Skip(s)..]; var j := k - Skip(s);
      && j + |w| <= |t| && t[j..j + |w|] == w
      && (j == 0 || IsSpace(t[j - 1]))
      && (j + |w| == |t| || IsSpace(t[j + |w|]))
  {
    var n := Skip(s);
    SliceOfSuffix(s, n, k - n, k - n + |w|);
  }

  /** A non-empty run of non-space characters with whitespace, or an end of
      `s`, on both sides is one of the tokens of `s`. */
  lemma {:induction false} WordAt(s: string, k: nat, w: string)
    requires w != [] && NoSpace(w)
    requires k + |w| <= |s| && s[k..k + |w|] == w
    requires k == 0 || IsSpace(s[k - 1])
    requires k + |w| == |s| || IsSpace(s[k + |w|])
    ensures w in Words(s)
    decreases k
  {
    if k == 0 {
      var rest := s[|w|..];
      assert s == w + rest;
      WordsCons(w, rest);
    } else {
      var n := Skip(s);
      WordAtSkip(s, k, w);
      WordsSkip(s);
      WordAt(s[n..], k - n, w);
    }
  }

  /** `w` occurs at `k` in `s`, with whitespace, or an end of `s`, on both sides. */
  ghost predicate BoundedAt(s: string, w: string, k: int) {
    OccursAt(s, w, k) && (k == 0 || IsSpace(s[k - 1])) && (k + |w| == |s| || IsSpace(s[k + |w|]))
  }

  /** The leading word of `s` is bounded by the start and by whitespace or the end. */
  lemma LeadingWordBounded(s: string)
    requires s != [] && !IsSpace(s[0])
    ensures BoundedAt(s, s[..Skip(s)], 0)
  {
  }

  /** A bounded word past the head of `s` stays bounded in `s` when it does
      not start right after a leading word. */
  lemma BoundedPastSkip(s: string, w: string, k: nat)
    requires s != [] && w != [] && !IsSpace(w[0])
    requires BoundedAt(s[Skip(s)..], w, k)
    ensures BoundedAt(s, w, Skip(s) + k)
  {
    var n := Skip(s);
    var t := s[n..];
    SliceOfSuffix(s, n, k, k + |w|);
    assert w[0] == t[k];
    if k == 0 {
      assert IsSpace(s[n - 1]);
    } else {
      assert t[k - 1] == s[n + k - 1];
    }
    if k + |w| < |t| {
      assert t[k + |w|] == s[n + k + |w|];
    }
  }

  /** The converse of `WordAt`: every token of `s` is a run bounded by
      whitespace, or an end of `s`, on both sides; no token is a piece of a longer run. */
  lemma {:induction false} WordsBounded(s: string, j: nat)
    requires j < |Words(s)|
    ensures exists k :: BoundedAt(s, Words(s)[j], k)
    decreases |s|
  {
    WordsSkip(s);
    var n := Skip(s);
    if !IsSpace(s[0]) && j == 0 {
      LeadingWordBounded(s);
      assert Words(s)[0] == s[..n];
    } else {
      var i := if IsSpace(s[0]) then j else j - 1;
      var w := Words(s[n..])[i];
      assert Words(s)[j] == w;
      WordsBounded(s[n..], i);
      var k :| BoundedAt(s[n..], w, k);
      BoundedPastSkip(s, w, k);
    }
  }

  /** Where the run of non-space characters that ends at `j` starts. */
  function WordRunStart(s: string, j: nat): (r: nat)
    requires j <= |s|
    ensures r <= j
    ensures forall k :: r <= k < j ==> !IsSpace(s[k])
    ensures r == 0 || IsSpace(s[r - 1])
    decreases j
  {
    if j > 0 && !IsSpace(s[j - 1]) then WordRunStart(s, j - 1) else j
  }

  /** Where the run of non-space characters that starts at `i` ends. */
  function WordRunEnd(s: string, i: nat): (r: nat)
    requires i <= |s|
    ensures i <= r <= |s|
    ensures forall k :: i <= k < r ==> !IsSpace(s[k])
    ensures r == |s| || IsSpace(s[r])
    decreases |s| - i
  {
    if i < |s| && !IsSpace(s[i]) then WordRunEnd(s, i + 1) else i
  }

  /** The maximal run of non-space characters around a non-empty space-free
      piece `s[i..i + |f|]` is bounded by whitespace or the ends of `s`. */
  lemma RunAround(s: string, f: string, i: nat)
    requires f != [] && NoSpace(f) && OccursAt(s, f, i)
    ensures var a, b := WordRunStart(s, i), WordRunEnd(s, i + |f|);
      && a <= i && i + |f| <= b
      && (forall k :: a <= k < b ==> !IsSpace(s[k]))
      && (a == 0 || IsSpace(s[a - 1]))
      && (b == |s| || IsSpace(s[b]))
  {
    forall k | i <= k < i + |f|
      ensures !IsSpace(s[k])
    {
      assert s[k] == f[k - i];
    }
  }

  /** A non-empty run of non-space characters bounded by whitespace or the
      ends of `s` is a token, stated on slice bounds. */
  lemma RunIsWord(s: string, a: nat, b: nat)
    requires a < b <= |s|
    requires forall k :: a <= k < b ==> !IsSpace(s[k])
    requires a == 0 || IsSpace(s[a - 1])
    requires b == |s| || IsSpace(s[b])
    ensures s[a..b] in Words(s)
  {
    var w := s[a..b];
    assert a + |w| == b;
    forall m | 0 <= m < |w|
      ensures !IsSpace(w[m])
    {
      assert w[m] == s[a + m];
    }
    WordAt(s, a, w);
  }

  /** A string `w` that reads as `s` from index `a` on, over a stretch
      holding an occurrence of `f`, includes `f`. */
  lemma ShiftedIncludes(s: string, w: string, a: nat, f: string, i: nat)
    requires a <= i && i + |f| <= a + |w| <= |s| && OccursAt(s, f, i)
    requires forall m :: 0 <= m < |w| ==> w[m] == s[a + m]
    ensures Includes(w, f)
  {
    forall m | 0 <= m < |f|
      ensures w[i - a + m] == f[m]
    {
      assert s[i + m] == f[m];
    }
    assert w[i - a..i - a + |f|] == f;
    assert OccursAt(w, f, i - a);
  }

  /** A non-empty piece of `s` without whitespace lies inside one of the tokens of `s`. */
  lemma InsideOneWord(s: string, f: string, i: nat)
    requires f != [] && NoSpace(f) && OccursAt(s, f, i)
    ensures exists w :: w in Words(s) && Includes(w, f)
  {
    var a := WordRunStart(s, i);
    var b := WordRunEnd(s, i + |f|);
    RunAround(s, f, i);
    RunIsWord(s, a, b);
    ShiftedIncludes(s, s[a..b], a, f, i);
  }

  /** Where the whitespace run starting at `i` ends: what `trimStart` keeps starts here. */
  function SpaceRunEnd(s: string, i: nat): (r: nat)
    requires i <= |s|
    ensures i <= r <= |s|
    ensures forall k :: i <= k < r ==> IsSpace(s[k])
    ensures r < |s| ==> !IsSpace(s[r])
    decreases |s| - i
  {
    if i < |s| && IsSpace(s[i]) then SpaceRunEnd(s, i + 1) else i
  }

  /** Where the whitespace run ending at `j`, and not reaching below `lo`,
      starts: what `trimEnd` keeps ends here. */
  function SpaceRunStart(s: string, lo: nat, j: nat): (r: nat)
    requires lo <= j <= |s|
    ensures lo <= r <= j
    ensures forall k :: r <= k < j ==> IsSpace(s[k])
    ensures r > lo ==> !IsSpace(s[r - 1])
    decreases j
  {
    if j > lo && IsSpace(s[j - 1]) then SpaceRunStart(s, lo, j - 1) else j
  }

  /** `s.trim()`: empty exactly for a blank string, otherwise the slice of `s`
      that starts and ends with a non-space character and leaves only
      whitespace before and after it. */
  function Trim(s: string): (r: string)
    ensures |r| <= |s|
    ensures r == [] <==> Blank(s)
    ensures r != [] ==> !IsSpace(r[0]) && !IsSpace(r[|r| - 1])
    ensures exists i :: OccursAt(s, r, i) && Blank(s[..i]) && Blank(s[i + |r|..])
  {
    var a := SpaceRunEnd(s, 0);
    var b := SpaceRunStart(s, a, |s|);
    assert OccursAt(s, s[a..b], a);
    assert Blank(s[..a]) && Blank(s[b..]);
    assert a == b ==> Blank(s);
    s[a..b]
  }

  /** A string that already starts and ends with a non-space character is its own trim. */
  lemma TrimOfTrimmed(s: string)
    requires s == [] || (!IsSpace(s[0]) && !IsSpace(s[|s| - 1]))
    ensures Trim(s) == s
  {
  }

  lemma TrimIdempotent(s: string)
    ensures Trim(Trim(s)) == Trim(s)
  {
    TrimOfTrimmed(Trim(s));
  }

  function DigitChar(d: nat): (c: char)
    requires d < 10
    ensures '0' <= c <= '9'
  {
    ('0' as int + d) as char
  }

  predicate AllDigits(s: string) {
    forall i :: 0 <= i < |s| ==> '0' <= s[i] <= '9'
  }

  /** The decimal rendering of a natural number, as `${n}` in a template literal. */
  function NatToDecimal(n: nat): (r: string)
    ensures r != [] && AllDigits(r)
  {
    if n < 10 then [DigitChar(n)] else NatToDecimal(n / 10) + [DigitChar(n % 10)]
  }

  /** The value a string of decimal digits denotes. */
  function DecimalValue(s: string): nat
    requires AllDigits(s)
  {
    if s == [] then 0 else 10 * DecimalValue(s[..|s| - 1]) + (s[|s| - 1] as int - '0' as int)
  }

  /** Reading back a rendered number gives the number. */
  lemma {:induction false} DecimalRoundTrip(n: nat)
    ensures DecimalValue(NatToDecimal(n)) == n
  {
    if n >= 10 {
      DecimalRoundTrip(n / 10);
      var r := NatToDecimal(n);
      assert r[..|r| - 1] == NatToDecimal(n / 10);
    }
  }
}
