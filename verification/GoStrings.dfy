// The parts of Go's strings and strconv packages that the modelled code calls,
// on strings of Unicode characters, together with the 64-bit integer range.
module GoStrings {
  import opened Wrappers

  const MIN_INT64 := -0x8000_0000_0000_0000
  const MAX_INT64 := 0x7fff_ffff_ffff_ffff

  predicate IsInt64(n: int) {
    MIN_INT64 <= n <= MAX_INT64
  }

  // Two's complement wrap-around of 64-bit arithmetic.
  function Wrap64(n: int): int {
    (n + 0x8000_0000_0000_0000) % 0x1_0000_0000_0000_0000 - 0x8000_0000_0000_0000
  }

  lemma WrapAdd(a: int, b: int)
    ensures Wrap64(Wrap64(a) + b) == Wrap64(a + b)
  {
  }

  lemma WrapInRange(n: int)
    requires IsInt64(n)
    ensures Wrap64(n) == n
  {
  }

  // ---- Substrings ----

  predicate OccursAt(s: string, sub: string, i: int) {
    0 <= i && i + |sub| <= |s| && s[i..i + |sub|] == sub
  }

  predicate Contains(s: string, sub: string) {
    exists i | 0 <= i <= |s| :: OccursAt(s, sub, i)
  }

  predicate HasPrefix(s: string, prefix: string) {
    OccursAt(s, prefix, 0)
  }

  function TrimPrefix(s: string, prefix: string): string {
    if HasPrefix(s, prefix) then s[|prefix|..] else s
  }

  // Position of the first occurrence at or after `from`, or -1.
  function IndexFrom(s: string, sub: string, from: nat): (r: int)
    requires from <= |s|
    ensures r == -1 ==> forall i | from <= i <= |s| :: !OccursAt(s, sub, i)
    ensures r != -1 ==> from <= r && OccursAt(s, sub, r) && forall i | from <= i < r :: !OccursAt(s, sub, i)
    decreases |s| - from
  {
    if OccursAt(s, sub, from) then from
    else if from == |s| then -1
    else IndexFrom(s, sub, from + 1)
  }

  function Index(s: string, sub: string): (r: int)
    ensures r == -1 <==> !Contains(s, sub)
    ensures r != -1 ==> OccursAt(s, sub, r) && forall i | 0 <= i < r :: !OccursAt(s, sub, i)
  {
    IndexFrom(s, sub, 0)
  }

  lemma IndexUnique(s: string, sub: string, at: nat)
    requires OccursAt(s, sub, at)
    requires forall i | 0 <= i < at :: !OccursAt(s, sub, i)
    ensures Index(s, sub) == at
  {
    assert Contains(s, sub);
  }

  // ---- Splitting ----

  // strings.Split, which explodes into characters on an empty separator.
  function Split(s: string, sep: string): seq<string> {
    if sep == "" then seq(|s|, i requires 0 <= i < |s| => [s[i]])
    else SplitOn(s, sep)
  }

  function SplitOn(s: string, sep: string): (pieces: seq<string>)
    requires sep != ""
    ensures |pieces| > 0
    decreases |s|
  {
    var k := Index(s, sep);
    if k == -1 then [s] else [s[..k]] + SplitOn(s[k + |sep|..], sep)
  }

  // strings.SplitN(s, sep, 2)
  function SplitN2(s: string, sep: string): (pieces: seq<string>)
    requires sep != ""
    ensures 1 <= |pieces| <= 2
  {
    var k := Index(s, sep);
    if k == -1 then [s] else [s[..k], s[k + |sep|..]]
  }

  // No proper suffix of the separator is a prefix of it, so occurrences cannot overlap.
  predicate Unbordered(sep: string) {
    sep != "" && forall k | 0 < k < |sep| :: sep[..|sep| - k] != sep[k..]
  }

  // A separator straight after text that is free of it is found exactly there.
  lemma IndexAfter(p: string, sep: string, rest: string)
    requires Unbordered(sep)
    requires !Contains(p, sep)
    ensures Index(p + sep + rest, sep) == |p|
  {
    var s := p + sep + rest;
    assert OccursAt(s, sep, |p|);
    forall i | 0 <= i < |p|
      ensures !OccursAt(s, sep, i)
    {
      if i + |sep| <= |p| {
        assert s[i..i + |sep|] == p[i..i + |sep|];
        assert !OccursAt(p, sep, i);
      } else {
        var k := |p| - i;
        assert s[i..i + |sep|][k..] == sep[..|sep| - k];
        assert sep[..|sep| - k] != sep[k..];
      }
    }
    IndexUnique(s, sep, |p|);
  }

  function Join(pieces: seq<string>, sep: string): string
    requires |pieces| > 0
  {
    if |pieces| == 1 then pieces[0] else pieces[0] + sep + Join(pieces[1..], sep)
  }

  // Splitting undoes joining on pieces that are free of the separator.
  lemma {:induction false} SplitJoin(pieces: seq<string>, sep: string)
    requires Unbordered(sep)
    requires |pieces| > 0
    requires forall p | p in pieces :: !Contains(p, sep)
    ensures SplitOn(Join(pieces, sep), sep) == pieces
  {
    if |pieces| == 1 {
      assert Index(pieces[0], sep) == -1;
    } else {
      var rest := Join(pieces[1..], sep);
      var s := Join(pieces, sep);
      IndexAfter(pieces[0], sep, rest);
      assert s[..|pieces[0]|] == pieces[0];
      assert s[|pieces[0]| + |sep|..] == rest;
      SplitJoin(pieces[1..], sep);
    }
  }

  lemma SliceOfSlice(s: string, lo: nat, hi: nat, from: nat, to: nat)
    requires lo <= hi <= |s| && from <= to <= hi - lo
    ensures s[lo..hi][from..to] == s[lo + from..lo + to]
  {
    var a, b := s[lo..hi][from..to], s[lo + from..lo + to];
    assert |a| == |b| == to - from;
    forall i | 0 <= i < to - from
      ensures a[i] == b[i]
    {
      assert a[i] == s[lo..hi][from + i] == s[lo + from + i] == b[i];
    }
    assert a == b;
  }

  lemma ContainsSlice(s: string, lo: nat, hi: nat, sub: string)
    requires lo <= hi <= |s|
    requires Contains(s[lo..hi], sub)
    ensures Contains(s, sub)
  {
    var i :| 0 <= i <= hi - lo && OccursAt(s[lo..hi], sub, i);
    SliceOfSlice(s, lo, hi, i, i + |sub|);
    assert OccursAt(s, sub, lo + i);
  }

  lemma BeforeIndex(s: string, sub: string)
    requires Contains(s, sub) && sub != ""
    ensures !Contains(s[..Index(s, sub)], sub)
  {
    var k := Index(s, sub);
    forall i | 0 <= i <= k
      ensures !OccursAt(s[..k], sub, i)
    {
      if i + |sub| <= k {
        assert s[..k][i..i + |sub|] == s[i..i + |sub|];
        assert !OccursAt(s, sub, i);
      }
    }
  }

  // Every piece is free of the separator, and whatever a piece contains the input contains.
  lemma {:induction false} SplitPieces(s: string, sep: string, p: string)
    requires sep != "" && p in SplitOn(s, sep)
    ensures !Contains(p, sep)
    ensures forall sub | Contains(p, sub) :: Contains(s, sub)
    decreases |s|
  {
    var k := Index(s, sep);
    if k != -1 {
      if p == s[..k] {
        BeforeIndex(s, sep);
        forall sub | Contains(p, sub)
          ensures Contains(s, sub)
        {
          ContainsSlice(s, 0, k, sub);
        }
      } else {
        var rest := s[k + |sep|..];
        SplitPieces(rest, sep, p);
        forall sub | Contains(p, sub)
          ensures Contains(s, sub)
        {
          assert rest == s[k + |sep|..|s|];
          ContainsSlice(s, k + |sep|, |s|, sub);
        }
      }
    }
  }

  // Occurrence of a single character.
  lemma ContainsChar(s: string, c: char)
    ensures Contains(s, [c]) <==> c in s
  {
    if c in s {
      var i :| 0 <= i < |s| && s[i] == c;
      assert s[i..i + |[c]|] == [c];
      assert OccursAt(s, [c], i);
    }
    if Contains(s, [c]) {
      var i :| 0 <= i <= |s| && OccursAt(s, [c], i);
      assert s[i] == s[i..i + |[c]|][0];
    }
  }

  lemma ContainsTrans(s: string, t: string, u: string)
    requires Contains(s, t) && Contains(t, u)
    ensures Contains(s, u)
  {
    var i :| 0 <= i <= |s| && OccursAt(s, t, i);
    var j :| 0 <= j <= |t| && OccursAt(t, u, j);
    SliceOfSlice(s, i, i + |t|, j, j + |u|);
    assert OccursAt(s, u, i + j);
  }

  // ---- White space ----

  // unicode.IsSpace
  predicate IsSpace(c: char) {
    c == '\t' || c == '\n' || c == '\U{0B}' || c == '\U{0C}' || c == '\r' || c == ' ' ||
    c == '\U{85}' || c == '\U{A0}' || c == '\U{1680}' || '\U{2000}' <= c <= '\U{200A}' ||
    c == '\U{2028}' || c == '\U{2029}' || c == '\U{202F}' || c == '\U{205F}' || c == '\U{3000}'
  }

  predicate Trimmed(s: string) {
    s == "" || (!IsSpace(s[0]) && !IsSpace(s[|s| - 1]))
  }

  // The first position from i that holds no white space.
  function SkipSpaces(s: string, i: nat): (r: nat)
    requires i <= |s|
    ensures i <= r <= |s| && (r < |s| ==> !IsSpace(s[r]))
    ensures i < |s| && !IsSpace(s[i]) ==> r == i
    ensures i < |s| && !IsSpace(s[|s| - 1]) ==> r < |s|
    decreases |s| - i
  {
    if i < |s| && IsSpace(s[i]) then SkipSpaces(s, i + 1) else i
  }

  // The last position down from j, but not below lo, that follows no white space.
  function SkipBack(s: string, lo: nat, j: nat): (r: nat)
    requires lo <= j <= |s|
    ensures lo <= r <= j && (r > lo ==> !IsSpace(s[r - 1]))
    ensures lo < j && !IsSpace(s[j - 1]) ==> r == j
    ensures lo < j && !IsSpace(s[lo]) ==> lo < r
    decreases j
  {
    if lo < j && IsSpace(s[j - 1]) then SkipBack(s, lo, j - 1) else j
  }

  // Exactly the trimmed strings are left alone, and the result is a trimmed substring.
  function TrimSpace(s: string): (r: string)
    ensures Trimmed(r)
    ensures Trimmed(s) ==> r == s
    ensures Contains(s, r)
    ensures s != "" && !IsSpace(s[0]) ==> r <= s
    ensures s != "" && !IsSpace(s[|s| - 1]) ==> r != ""
  {
    var lo := SkipSpaces(s, 0);
    var hi := SkipBack(s, lo, |s|);
    assert s[lo..lo + |s[lo..hi]|] == s[lo..hi];
    assert OccursAt(s, s[lo..hi], lo);
    s[lo..hi]
  }

  predicate AllSpace(s: string) {
    forall i | 0 <= i < |s| :: IsSpace(s[i])
  }

  lemma {:induction false} SkipsSpaces(s: string, i: nat, n: nat)
    requires i <= n <= |s| && forall j | i <= j < n :: IsSpace(s[j])
    requires n == |s| || !IsSpace(s[n])
    ensures SkipSpaces(s, i) == n
    decreases n - i
  {
    if i < n {
      SkipsSpaces(s, i + 1, n);
    }
  }

  lemma {:induction false} SkipsBack(s: string, lo: nat, n: nat, j: nat)
    requires lo <= n <= j <= |s| && forall i | n <= i < j :: IsSpace(s[i])
    requires n == lo || !IsSpace(s[n - 1])
    ensures SkipBack(s, lo, j) == n
    decreases j
  {
    if n < j {
      SkipsBack(s, lo, n, j - 1);
    }
  }

  // What is trimmed is exactly the white space around a trimmed text.
  lemma TrimSpaceOf(before: string, r: string, after: string)
    requires AllSpace(before) && AllSpace(after) && Trimmed(r)
    ensures TrimSpace(before + r + after) == r
  {
    var s := before + r + after;
    if r == "" {
      assert forall j | 0 <= j < |s| :: s[j] == if j < |before| then before[j] else after[j - |before|];
      SkipsSpaces(s, 0, |s|);
    } else {
      var lo, hi := |before|, |before| + |r|;
      assert s[lo] == r[0] && s[hi - 1] == r[|r| - 1];
      assert forall j | 0 <= j < lo :: s[j] == before[j];
      assert forall j | hi <= j < |s| :: s[j] == after[j - hi];
      SkipsSpaces(s, 0, lo);
      SkipsBack(s, lo, hi, |s|);
      assert s[lo..hi] == r;
    }
  }

  // ---- Decimal numbers ----

  predicate IsDigit(c: char) {
    '0' <= c <= '9'
  }

  predicate AllDigits(s: string) {
    forall c | c in s :: IsDigit(c)
  }

  function DigitsValue(s: string): nat
    requires AllDigits(s)
  {
    if s == "" then 0 else
      assert IsDigit(s[|s| - 1]);
      10 * DigitsValue(s[..|s| - 1]) + (s[|s| - 1] as int - '0' as int)
  }

  // The digits %d prints for a non-negative number.
  function Digits(n: nat): (s: string)
    ensures s != "" && AllDigits(s) && DigitsValue(s) == n && (n > 0 ==> s[0] != '0')
    ensures n < 10 ==> |s| == 1
  {
    var last := ('0' as int + n % 10) as char;
    if n < 10 then
      assert [last][..0] == "";
      [last]
    else
      var s := Digits(n / 10) + [last];
      assert s[..|s| - 1] == Digits(n / 10);
      s
  }

  // %d
  function Itoa(n: int): string {
    if n < 0 then "-" + Digits(-n) else Digits(n)
  }

  // strconv.Atoi on a 64-bit platform: optional sign, at least one digit, in range.
  function Atoi(s: string): (r: Option<int>)
    ensures r.Some? ==> IsInt64(r.value)
    ensures r.Some? && '-' !in s ==> r.value >= 0
  {
    var negative := HasPrefix(s, "-");
    var digits := if negative || HasPrefix(s, "+") then s[1..] else s;
    if digits == "" || !AllDigits(digits) then None
    else
      var value: int := DigitsValue(digits);
      var n := if negative then -value else value;
      assert negative ==> s[0] == '-';
      if IsInt64(n) then Some(n) else None
  }

  lemma AtoiDigits(n: nat)
    requires IsInt64(n)
    ensures Atoi(Digits(n)) == Some(n)
  {
    var s := Digits(n);
    assert IsDigit(s[0]) && s[0..1] == [s[0]];
  }

  lemma AtoiItoa(n: int)
    requires IsInt64(n)
    ensures Atoi(Itoa(n)) == Some(n)
  {
    if n < 0 {
      var s := Itoa(n);
      assert s[0..1] == "-" && s[1..] == Digits(-n);
    } else {
      AtoiDigits(n);
    }
  }
}
