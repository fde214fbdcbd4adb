/** The pieces of Go's `strings` and `strconv` packages that the Ceph helpers rely on,
    as functions on `seq<char>`. */
module Strings {
  import opened Outcomes

  /** `unicode.IsSpace`, the white space that `strings.TrimSpace` and `strings.Fields` use. */
  predicate IsSpace(c: char)
  {
    || c == ' ' || c == '\t' || c == '\n' || c == '\r' || c == '\U{0B}' || c == '\U{0C}'
    || c == '\U{85}' || c == '\U{A0}' || c == '\U{1680}' || ('\U{2000}' <= c <= '\U{200A}')
    || c == '\U{2028}' || c == '\U{2029}' || c == '\U{202F}' || c == '\U{205F}' || c == '\U{3000}'
  }

  predicate NoSpace(s: string)
  {
    forall i :: 0 <= i < |s| ==> !IsSpace(s[i])
  }

  predicate AllSpace(s: string)
  {
    forall i :: 0 <= i < |s| ==> IsSpace(s[i])
  }

  predicate HasPrefix(s: string, p: string)
  {
    |p| <= |s| && s[..|p|] == p
  }

  predicate HasSuffix(s: string, p: string)
  {
    |p| <= |s| && s[|s| - |p|..] == p
  }

  /** `strings.TrimPrefix`. */
  function TrimPrefix(s: string, p: string): (r: string)
    ensures HasPrefix(s, p) ==> p + r == s
    ensures !HasPrefix(s, p) ==> r == s
  {
    if HasPrefix(s, p) then s[|p|..] else s
  }

  /** `strings.TrimSuffix`. */
  function TrimSuffix(s: string, p: string): (r: string)
    ensures HasSuffix(s, p) ==> r + p == s
    ensures !HasSuffix(s, p) ==> r == s
  {
    if HasSuffix(s, p) then s[..|s| - |p|] else s
  }

  function TrimLeft(s: string): (r: string)
    ensures |r| <= |s| && r == s[|s| - |r|..]
    ensures r == [] || !IsSpace(r[0])
    ensures forall i :: 0 <= i < |s| - |r| ==> IsSpace(s[i])
  {
    if s != [] && IsSpace(s[0]) then TrimLeft(s[1..]) else s
  }

  function TrimRight(s: string): (r: string)
    ensures |r| <= |s| && r == s[..|r|]
    ensures r == [] || !IsSpace(r[|r| - 1])
    ensures forall i :: |r| <= i < |s| ==> IsSpace(s[i])
  {
    if s != [] && IsSpace(s[|s| - 1]) then TrimRight(s[..|s| - 1]) else s
  }

  /** `strings.TrimSpace`: no white space is left at either end. */
  function TrimSpace(s: string): (r: string)
    ensures r == [] || (!IsSpace(r[0]) && !IsSpace(r[|r| - 1]))
  {
    TrimRight(TrimLeft(s))
  }

  /** Trimming leaves nothing exactly when there was nothing but white space. */
  lemma TrimSpaceEmpty(s: string)
    ensures TrimSpace(s) == [] <==> AllSpace(s)
  {
  }

  /** Trimming keeps only characters of the original. */
  lemma TrimSpaceInside(s: string)
    ensures forall c :: c in TrimSpace(s) ==> c in s
  {
    var l := TrimLeft(s);
    var t := TrimRight(l);
    forall c | c in t ensures c in s {
      var i :| 0 <= i < |t| && t[i] == c;
      assert l[i] == c;
      assert s[|s| - |l| + i] == c;
    }
  }

  lemma TrimSpaceOfTrimmed(s: string)
    requires s == [] || (!IsSpace(s[0]) && !IsSpace(s[|s| - 1]))
    ensures TrimSpace(s) == s
  {
  }

  lemma TrimSpaceNoSpace(s: string)
    requires NoSpace(s)
    ensures TrimSpace(s) == s
  {
    if s != [] {
      assert !IsSpace(s[0]) && !IsSpace(s[|s| - 1]);
    }
  }

  /** Trimming at the right end stops at the last character that is not white space. */
  lemma TrimRightKeeps(s: string, k: nat)
    requires k < |s| && !IsSpace(s[k])
    ensures k < |TrimRight(s)|
  {
  }

  /** Text that starts with a prefix beginning and ending in non-white-space still starts
      with it once trimmed. */
  lemma TrimKeepsPrefix(s: string, p: string)
    requires HasPrefix(s, p) && p != [] && !IsSpace(p[0]) && !IsSpace(p[|p| - 1])
    ensures HasPrefix(TrimSpace(s), p)
  {
    assert s[0] == p[0] && s[|p| - 1] == p[|p| - 1];
    assert TrimLeft(s) == s;
    TrimRightKeeps(s, |p| - 1);
    assert TrimRight(s)[..|p|] == s[..|p|];
  }

  /** A word followed only by white space trims to the word. */
  lemma TrimWord(w: string, post: string)
    requires w != [] && NoSpace(w) && AllSpace(post)
    ensures TrimSpace(w + post) == w
  {
    var s := w + post;
    assert s[0] == w[0];
    assert TrimLeft(s) == s;
    var r := TrimRight(s);
    TrimRightKeeps(s, |w| - 1);
    forall i | |w| <= i < |s| ensures IsSpace(s[i]) {
      assert s[i] == post[i - |w|];
    }
    assert r == s[..|w|] == w;
  }

  /** A word, a line break and more text that is not all white space: trimming keeps the
      word and the line break. */
  lemma TrimKeepsLine(w: string, post: string)
    requires w != [] && NoSpace(w) && !AllSpace(post)
    ensures HasPrefix(TrimSpace(w + ("\n" + post)), w + "\n")
  {
    var s := w + ("\n" + post);
    assert s[0] == w[0];
    assert TrimLeft(s) == s;
    var k :| 0 <= k < |post| && !IsSpace(post[k]);
    assert s[|w| + 1 + k] == post[k];
    TrimRightKeeps(s, |w| + 1 + k);
    var r := TrimRight(s);
    assert r[..|w| + 1] == s[..|w| + 1] == w + "\n";
  }

  /** `sub` occurs in `s` starting at index `i`. */
  predicate OccursAt(s: string, sub: string, i: int)
  {
    0 <= i && i + |sub| <= |s| && s[i..i + |sub|] == sub
  }

  /** `strings.Index`: the first index at which `sub` occurs in `s`, or -1. */
  function IndexOf(s: string, sub: string): (r: int)
    ensures r == -1 || (0 <= r && OccursAt(s, sub, r))
    ensures forall i :: 0 <= i && (r == -1 || i < r) ==> !OccursAt(s, sub, i)
    decreases |s|
  {
    if |s| < |sub| then -1
    else if s[..|sub|] == sub then 0
    else
      var k := IndexOf(s[1..], sub);
      assert forall i :: 1 <= i && OccursAt(s, sub, i) ==> OccursAt(s[1..], sub, i - 1);
      if k < 0 then -1 else k + 1
  }

  /** An occurrence at `i` with none before it is what `IndexOf` finds. */
  lemma IndexOfIs(s: string, sub: string, i: int)
    requires OccursAt(s, sub, i)
    requires forall j :: 0 <= j < i ==> !OccursAt(s, sub, j)
    ensures IndexOf(s, sub) == i
  {
  }

  /** Text whose first character does not occur before `rest` is found at the start of `rest`. */
  lemma IndexAfter(pre: string, sub: string, rest: string)
    requires sub != [] && sub[0] !in pre && HasPrefix(rest, sub)
    ensures IndexOf(pre + rest, sub) == |pre|
  {
    var s := pre + rest;
    assert s[|pre|..|pre| + |sub|] == rest[..|sub|];
    forall j | 0 <= j < |pre| ensures !OccursAt(s, sub, j) {
      assert pre[j] in pre && s[j] == pre[j];
      if j + |sub| <= |s| {
        var t := s[j..j + |sub|];
        assert t[0] == s[j] != sub[0];
        assert t != sub;
      }
    }
    IndexOfIs(s, sub, |pre|);
  }

  /** When `sub` does not occur in `pre + sub` before `pre` ends, the first occurrence in
      `pre + (sub + rest)` is the one right after `pre`. */
  lemma IndexAtJoin(pre: string, sub: string, rest: string)
    requires forall j :: 0 <= j < |pre| ==> !OccursAt(pre + sub, sub, j)
    ensures IndexOf(pre + (sub + rest), sub) == |pre|
    ensures (pre + (sub + rest))[|pre| + |sub|..] == rest
  {
    var s := pre + (sub + rest);
    var q := pre + sub;
    assert s[..|q|] == q;
    assert forall k :: 0 <= k < |q| ==> s[k] == q[k];
    forall j | 0 <= j < |pre| ensures !OccursAt(s, sub, j) {
      assert !OccursAt(q, sub, j) && j + |sub| <= |q|;
      assert s[j..j + |sub|] == q[j..j + |sub|];
    }
    assert s[|pre|..|pre| + |sub|] == sub;
    IndexOfIs(s, sub, |pre|);
  }

  /** Nothing before the first occurrence of a character is that character. */
  lemma BeforeFirst(s: string, c: char)
    requires IndexOf(s, [c]) >= 0
    ensures c !in s[..IndexOf(s, [c])]
  {
    var k := IndexOf(s, [c]);
    forall i | 0 <= i < k ensures s[i] != c {
      assert !OccursAt(s, [c], i) && s[i..i + 1] == [s[i]];
    }
  }

  /** A character that does not occur is not found. */
  lemma IndexOfAbsent(s: string, c: char)
    requires c !in s
    ensures IndexOf(s, [c]) == -1
  {
    forall i | 0 <= i < |s| ensures !OccursAt(s, [c], i) {
      assert s[i..i + 1] == [s[i]];
    }
  }

  /** The last index of `c` in `s` (`strings.LastIndexByte` for one character), or -1. */
  function LastIndex(s: string, c: char): (r: int)
    ensures r == -1 || (0 <= r < |s| && s[r] == c)
    ensures forall i :: r < i < |s| ==> s[i] != c
  {
    if s == [] then -1
    else if s[|s| - 1] == c then |s| - 1
    else LastIndex(s[..|s| - 1], c)
  }

  /** `strings.SplitN(s, c, 2)`: the text before and after the first `c`, if there is one. */
  function SplitFirst(s: string, c: char): (r: Option<(string, string)>)
    ensures r.None? <==> c !in s
    ensures r.Some? ==> r.value.0 + [c] + r.value.1 == s && c !in r.value.0
  {
    var k := IndexOf(s, [c]);
    if k < 0 then
      assert forall i :: 0 <= i < |s| ==> s[i] != c by {
        forall i | 0 <= i < |s| ensures s[i] != c { assert !OccursAt(s, [c], i); }
      }
      None
    else
      assert s[..k] + [c] + s[k + 1..] == s;
      assert forall i :: 0 <= i < k ==> s[i] != c by {
        forall i | 0 <= i < k ensures s[i] != c { assert !OccursAt(s, [c], i); }
      }
      Some((s[..k], s[k + 1..]))
  }

  /** The text before and after the last `c`, if there is one: what the parsers recover
      from `strings.Split(s, c)` by taking its last element. */
  function SplitLast(s: string, c: char): (r: Option<(string, string)>)
    ensures r.None? <==> c !in s
    ensures r.Some? ==> r.value.0 + [c] + r.value.1 == s && c !in r.value.1
  {
    var k := LastIndex(s, c);
    if k < 0 then None
    else
      assert s[..k] + [c] + s[k + 1..] == s;
      Some((s[..k], s[k + 1..]))
  }

  /** `SplitFirst` splits at the first `c`, so it undoes a join whose left part has none. */
  lemma SplitFirstOf(a: string, c: char, b: string)
    requires c !in a
    ensures SplitFirst(a + [c] + b, c) == Some((a, b))
  {
    var s := a + [c] + b;
    var r := SplitFirst(s, c).value;
    assert forall k :: 0 <= k < |r.0| ==> s[k] == r.0[k];
    assert s[|a|] == c && s[|r.0|] == c;
    assert r.0 == s[..|a|] == a;
    assert r.1 == s[|a| + 1..] == b;
  }

  /** `SplitLast` splits at the last `c`, so it undoes a join whose right part has none. */
  lemma SplitLastOf(a: string, c: char, b: string)
    requires c !in b
    ensures SplitLast(a + [c] + b, c) == Some((a, b))
  {
    var s := a + [c] + b;
    var r := SplitLast(s, c).value;
    assert forall k :: |s| - |r.1| <= k < |s| ==> s[k] == r.1[k - (|s| - |r.1|)];
    assert s[|a|] == c && s[|s| - |r.1| - 1] == c;
    assert r.0 == s[..|a|] == a;
    assert r.1 == s[|a| + 1..] == b;
  }

  lemma CancelPrefix(p: string, x: string, y: string)
    requires p + x == p + y
    ensures x == y
  {
    assert x == (p + x)[|p|..];
  }

  lemma CancelSuffix(x: string, y: string, p: string)
    requires x + p == y + p
    ensures x == y
  {
    assert x == (x + p)[..|x|];
  }

  lemma SuffixOfJoin(a: string, b: string)
    ensures HasSuffix(a + b, b)
  {
    assert (a + b)[|a|..] == b;
  }

  /** Number of leading characters of `s` that are not white space. */
  function WordLen(s: string): (n: nat)
    ensures n <= |s|
    ensures forall i :: 0 <= i < n ==> !IsSpace(s[i])
    ensures n < |s| ==> IsSpace(s[n])
  {
    if s == [] || IsSpace(s[0]) then 0 else 1 + WordLen(s[1..])
  }

  /** `strings.Fields`: the maximal runs of non-white-space characters. */
  function Fields(s: string): (r: seq<string>)
    ensures forall k :: 0 <= k < |r| ==> r[k] != [] && NoSpace(r[k])
    ensures r == [] <==> AllSpace(s)
    decreases |s|
  {
    if s == [] then []
    else if IsSpace(s[0]) then
      var r := Fields(s[1..]);
      assert AllSpace(s[1..]) ==> AllSpace(s) by {
        if AllSpace(s[1..]) {
          forall i | 0 <= i < |s| ensures IsSpace(s[i]) { if i > 0 { assert s[i] == s[1..][i - 1]; } }
        }
      }
      r
    else
      var n := WordLen(s);
      [s[..n]] + Fields(s[n..])
  }

  // ---------------------------------------------------------------- numbers

  const MaxUint64: nat := 0x1_0000_0000_0000_0000 - 1

  predicate IsDigit(c: char)
  {
    '0' <= c <= '9'
  }

  predicate AllDigits(s: string)
  {
    forall i :: 0 <= i < |s| ==> IsDigit(s[i])
  }

  function DigitValue(c: char): nat
    requires IsDigit(c)
  {
    c as int - '0' as int
  }

  /** The value of a decimal numeral, most significant digit first. */
  function DigitsValue(s: string): nat
    requires AllDigits(s)
  {
    if s == [] then 0 else 10 * DigitsValue(s[..|s| - 1]) + DigitValue(s[|s| - 1])
  }

  /** `strconv.ParseUint(s, 10, 64)`: a non-empty run of decimal digits (leading zeros
      allowed, no sign) whose value fits in 64 bits. */
  function ParseUint(s: string): (r: Option<nat>)
    ensures r.Some? <==> s != [] && AllDigits(s) && DigitsValue(s) <= MaxUint64
    ensures r.Some? ==> r.value == DigitsValue(s) && r.value <= MaxUint64
  {
    if s != [] && AllDigits(s) && DigitsValue(s) <= MaxUint64 then Some(DigitsValue(s)) else None
  }

  function DigitChar(d: nat): (c: char)
    requires d < 10
    ensures IsDigit(c) && DigitValue(c) == d
  {
    ('0' as int + d) as char
  }

  /** `fmt.Sprintf("%d", n)`: the decimal numeral of `n`, without leading zeros. */
  function NatToString(n: nat): (s: string)
    ensures s != [] && AllDigits(s)
    ensures DigitsValue(s) == n
    ensures s[0] == '0' ==> n == 0
  {
    if n < 10 then [DigitChar(n)]
    else
      var p := NatToString(n / 10);
      var s := p + [DigitChar(n % 10)];
      assert s[..|s| - 1] == p;
      s
  }

  /** Formatting then parsing a 64-bit value gives it back. */
  lemma ParseFormatted(n: nat)
    requires n <= MaxUint64
    ensures ParseUint(NatToString(n)) == Some(n)
  {
  }
}
