/** The JavaScript string built-ins the encoders and the service layer rely on:
    `trim`, a global `replace` of a literal pattern by the empty string,
    `join`/`split` on one separator character, `Number.prototype.toString(radix)`
    on non-negative integers, `padStart` and `toUpperCase` on ASCII letters.
    Each is paired with an independent characterisation or an inverse. */
module Text {
  import opened Wrappers

  // ---------------------------------------------------------------------
  // Substrings
  // ---------------------------------------------------------------------

  /** `p` occurs in `s` starting at index `i`. */
  predicate OccursAt(s: string, p: string, i: int) {
    0 <= i && i + |p| <= |s| && s[i..i + |p|] == p
  }

  /** `s.includes(p)` */
  predicate Contains(s: string, p: string) {
    exists i :: 0 <= i <= |s| && OccursAt(s, p, i)
  }

  lemma ContainsInfix(a: string, p: string, b: string)
    ensures Contains(a + p + b, p)
  {
    assert (a + p + b)[|a|..|a| + |p|] == p;
    assert OccursAt(a + p + b, p, |a|);
  }

  /** A string that contains `p` still does once text is put around it. */
  lemma ContainsWithin(a: string, x: string, b: string, p: string)
    requires Contains(x, p)
    ensures Contains(a + x + b, p)
  {
    var i :| 0 <= i <= |x| && OccursAt(x, p, i);
    assert (a + x + b)[|a| + i..|a| + i + |p|] == x[i..i + |p|];
    assert OccursAt(a + x + b, p, |a| + i);
  }

  lemma SliceOfSlice(s: string, lo: nat, hi: nat, i: nat, j: nat)
    requires lo <= hi <= |s| && i <= j <= hi - lo
    ensures s[lo..hi][i..j] == s[lo + i..lo + j]
  {
    var a := s[lo..hi][i..j];
    var b := s[lo + i..lo + j];
    forall k | 0 <= k < |a|
      ensures a[k] == b[k]
    {
    }
  }

  /** A slice of a string that does not contain `p` does not contain `p` either. */
  lemma SliceAvoids(s: string, lo: nat, hi: nat, p: string)
    requires lo <= hi <= |s|
    requires !Contains(s, p)
    ensures !Contains(s[lo..hi], p)
  {
    forall i | 0 <= i <= hi - lo
      ensures !OccursAt(s[lo..hi], p, i)
    {
      assert !OccursAt(s, p, lo + i);
      if i + |p| <= hi - lo {
        SliceOfSlice(s, lo, hi, i, i + |p|);
      }
    }
  }

  // ---------------------------------------------------------------------
  // String.prototype.trim
  // ---------------------------------------------------------------------

  /** The ECMAScript WhiteSpace and LineTerminator code points, which `trim`
      removes from both ends. */
  predicate IsWhitespace(c: char) {
    || c == '\t' || c == '\n' || c == '\U{000B}' || c == '\U{000C}' || c == '\r'
    || c == ' ' || c == '\U{00A0}' || c == '\U{1680}'
    || ('\U{2000}' <= c <= '\U{200A}')
    || c == '\U{2028}' || c == '\U{2029}' || c == '\U{202F}' || c == '\U{205F}'
    || c == '\U{3000}' || c == '\U{FEFF}'
  }

  predicate AllWhitespace(s: string) {
    forall i :: 0 <= i < |s| ==> IsWhitespace(s[i])
  }

  predicate NoWhitespace(s: string) {
    forall i :: 0 <= i < |s| ==> !IsWhitespace(s[i])
  }

  /** Neither end of `s` is whitespace. */
  predicate IsTrimmed(s: string) {
    |s| > 0 ==> !IsWhitespace(s[0]) && !IsWhitespace(s[|s| - 1])
  }

  function TrimStart(s: string): (r: string)
    ensures |r| <= |s| && r == s[|s| - |r|..]
    ensures AllWhitespace(s[..|s| - |r|])
    ensures |r| > 0 ==> !IsWhitespace(r[0])
  {
    if |s| > 0 && IsWhitespace(s[0]) then TrimStart(s[1..]) else s
  }

  function TrimEnd(s: string): (r: string)
    ensures |r| <= |s| && r == s[..|r|]
    ensures AllWhitespace(s[|r|..])
    ensures |r| > 0 ==> !IsWhitespace(r[|r| - 1])
  {
    if |s| > 0 && IsWhitespace(s[|s| - 1]) then TrimEnd(s[..|s| - 1]) else s
  }

  /** `r` is `s` with its first `i` characters and the characters after
      `i + |r|` removed, all of which are whitespace. */
  predicate StrippedAt(s: string, r: string, i: int) {
    0 <= i <= |s| - |r| && r == s[i..i + |r|]
    && AllWhitespace(s[..i]) && AllWhitespace(s[i + |r|..])
  }

  /** `s.trim()`: neither end of the result is whitespace. */
  function Trim(s: string): (r: string)
    ensures |r| <= |s|
    ensures IsTrimmed(r)
  {
    TrimEndsKept(s);
    TrimEnd(TrimStart(s))
  }

  /** What `trim()` removes is a whitespace-only prefix and a whitespace-only suffix. */
  lemma TrimStrips(s: string)
    ensures exists i :: StrippedAt(s, Trim(s), i)
  {
    TrimIsInfix(s);
    assert StrippedAt(s, Trim(s), |s| - |TrimStart(s)|);
  }

  /** A stripped part of `s` holds no pattern `s` does not hold. */
  lemma StrippedAvoids(s: string, r: string, i: int, p: string)
    requires StrippedAt(s, r, i)
    requires !Contains(s, p)
    ensures !Contains(r, p)
  {
    SliceAvoids(s, i, i + |r|, p);
  }

  /** Trimming introduces no pattern. */
  lemma TrimAvoids(s: string, p: string)
    requires !Contains(s, p)
    ensures !Contains(Trim(s), p)
  {
    TrimStrips(s);
    var i :| StrippedAt(s, Trim(s), i);
    StrippedAvoids(s, Trim(s), i, p);
  }

  lemma TrimEndsKept(s: string)
    ensures IsTrimmed(TrimEnd(TrimStart(s)))
  {
    var t := TrimStart(s);
    var r := TrimEnd(t);
    if |r| > 0 {
      assert r[0] == t[0];
    }
  }

  lemma TrimIsInfix(s: string)
    ensures StrippedAt(s, TrimEnd(TrimStart(s)), |s| - |TrimStart(s)|)
  {
    var t := TrimStart(s);
    StrippedAtIntro(s, t, TrimEnd(t), |s| - |t|);
  }

  /** A whitespace prefix cut off, then a whitespace suffix. */
  lemma StrippedAtIntro(s: string, t: string, r: string, i: nat)
    requires i <= |s| && t == s[i..] && AllWhitespace(s[..i])
    requires |r| <= |t| && r == t[..|r|] && AllWhitespace(t[|r|..])
    ensures StrippedAt(s, r, i)
  {
    assert r == s[i..i + |r|];
    assert s[i + |r|..] == t[|r|..];
  }

  /** Trimming leaves a string unchanged exactly when it is already trimmed. */
  lemma TrimFixpoint(s: string)
    ensures Trim(s) == s <==> IsTrimmed(s)
  {
    if IsTrimmed(s) {
      assert TrimStart(s) == s;
      assert TrimEnd(s) == s;
    }
  }

  lemma TrimIdempotent(s: string)
    ensures Trim(Trim(s)) == Trim(s)
  {
    TrimFixpoint(Trim(s));
  }

  // ---------------------------------------------------------------------
  // s.replace(/p/g, '') for a pattern p without regular-expression operators
  // ---------------------------------------------------------------------

  /** Deletes the occurrences of `p` met scanning left to right, resuming
      after each match, as a global regular-expression replace by '' does. */
  function DeleteAll(s: string, p: string): (r: string)
    requires |p| > 0
    ensures |r| <= |s|
    decreases |s|
  {
    if |s| < |p| then s
    else if s[..|p|] == p then DeleteAll(s[|p|..], p)
    else [s[0]] + DeleteAll(s[1..], p)
  }

  /** Deleting a pattern that does not occur changes nothing. */
  lemma {:induction false} DeleteAllAbsent(s: string, p: string)
    requires |p| > 0
    requires !Contains(s, p)
    ensures DeleteAll(s, p) == s
    decreases |s|
  {
    assert !OccursAt(s, p, 0);
    if |s| >= |p| {
      SliceAvoids(s, 1, |s|, p);
      assert s[1..|s|] == s[1..];
      DeleteAllAbsent(s[1..], p);
      assert s == [s[0]] + s[1..];
    }
  }

  const Fence := "```"

  /** `s` starts with three backticks. */
  predicate FenceAtHead(s: string) {
    |s| >= 3 && s[0] == '`' && s[1] == '`' && s[2] == '`'
  }

  lemma FenceAtHeadIsOccurrence(s: string)
    ensures OccursAt(s, Fence, 0) <==> FenceAtHead(s)
  {
    if |s| >= 3 {
      assert s[..3] == [s[0], s[1], s[2]];
    }
  }

  /** Where no fence starts, the head character is kept. */
  lemma DeleteFenceKeepsHead(s: string)
    requires |s| > 0 && !FenceAtHead(s)
    ensures DeleteAll(s, Fence) == [s[0]] + DeleteAll(s[1..], Fence)
  {
    FenceAtHeadIsOccurrence(s);
    if |s| >= 3 {
      assert !OccursAt(s, Fence, 0);
    }
  }

  /** A closing fence after text without three backticks is deleted and the
      text is kept, even when the text ends in one or two backticks that
      the scan reads together with the fence. */
  lemma {:induction false} DeleteFenceBeforeFence(s: string)
    requires !Contains(s, Fence)
    ensures DeleteAll(s + Fence, Fence) == s
    decreases |s|
  {
    var t := s + Fence;
    FenceAtHeadIsOccurrence(t);
    if FenceAtHead(t) {
      if |s| >= 3 {
        assert s[..3] == t[..3];
        assert OccursAt(s, Fence, 0);
      }
      assert forall k :: 0 <= k < |s| ==> s[k] == t[k] == '`';
      assert t[3..] == s;
      DeleteAllAbsent(s, Fence);
    } else {
      DeleteFenceKeepsHead(t);
      SliceAvoids(s, 1, |s|, Fence);
      assert s[1..|s|] == s[1..];
      DeleteFenceBeforeFence(s[1..]);
      assert t[1..] == s[1..] + Fence;
    }
  }

  /** A string that does not start with three backticks keeps at most two
      of its leading backticks at the head of the result. */
  lemma NoFenceAtHead(s: string)
    requires |s| > 0 && !FenceAtHead(s)
    ensures !FenceAtHead(DeleteAll(s, Fence))
  {
    var t := s[1..];
    DeleteFenceKeepsHead(s);
    var rt := DeleteAll(t, Fence);
    if s[0] == '`' && |t| > 0 {
      if t[0] != '`' {
        DeleteFenceKeepsHead(t);
      } else if |t| > 1 {
        assert !FenceAtHead(t);
        DeleteFenceKeepsHead(t);
        DeleteFenceKeepsHead(t[1..]);
        assert rt[1] == t[1];
      }
    }
  }

  /** After a global delete of three backticks, no three backticks remain:
      a backtick kept in front of a deleted run would itself have started
      a match. */
  lemma {:induction false} DeleteAllFenceLeavesNone(s: string)
    ensures !Contains(DeleteAll(s, Fence), Fence)
    decreases |s|
  {
    var r := DeleteAll(s, Fence);
    FenceAtHeadIsOccurrence(s);
    if |s| == 0 {
    } else if FenceAtHead(s) {
      DeleteAllFenceLeavesNone(s[3..]);
    } else {
      var rt := DeleteAll(s[1..], Fence);
      DeleteFenceKeepsHead(s);
      DeleteAllFenceLeavesNone(s[1..]);
      NoFenceAtHead(s);
      FenceAtHeadIsOccurrence(r);
      forall i | 0 < i <= |r|
        ensures !OccursAt(r, Fence, i)
      {
        assert !OccursAt(rt, Fence, i - 1);
        if i + 3 <= |r| {
          assert r[i..i + 3] == rt[i - 1..i + 2];
        }
      }
    }
  }

  // ---------------------------------------------------------------------
  // Array.prototype.join and String.prototype.split on one character
  // ---------------------------------------------------------------------

  /** `xs.join(sep)` */
  function Join(xs: seq<string>, sep: char): (r: string)
  {
    if |xs| == 0 then ""
    else if |xs| == 1 then xs[0]
    else xs[0] + [sep] + Join(xs[1..], sep)
  }

  /** `s.split(sep)`: the pieces between separators, never an empty list
      (`"".split(" ")` is `[""]`). */
  function Split(s: string, sep: char): (r: seq<string>)
    ensures |r| >= 1
    ensures forall k :: 0 <= k < |r| ==> sep !in r[k]
  {
    if |s| == 0 then [""]
    else
      var rest := Split(s[1..], sep);
      if s[0] == sep then [""] + rest
      else [[s[0]] + rest[0]] + rest[1..]
  }

  /** Joining the pieces of a split gives back the string. */
  lemma {:induction false} JoinSplit(s: string, sep: char)
    ensures Join(Split(s, sep), sep) == s
  {
    if |s| > 0 {
      var rest := Split(s[1..], sep);
      var pieces := Split(s, sep);
      JoinSplit(s[1..], sep);
      assert s == [s[0]] + s[1..];
      if s[0] == sep {
        assert pieces == [""] + rest;
        assert pieces[1..] == rest;
        assert Join(pieces, sep) == "" + [sep] + Join(rest, sep);
      } else if |rest| == 1 {
        assert pieces == [[s[0]] + rest[0]];
      } else {
        assert pieces[0] == [s[0]] + rest[0];
        assert pieces[1..] == rest[1..];
        assert Join(rest, sep) == rest[0] + [sep] + Join(rest[1..], sep);
        assert Join(pieces, sep) == ([s[0]] + rest[0]) + [sep] + Join(rest[1..], sep);
      }
    }
  }

  /** Splitting a string whose leading piece holds no separator: the piece comes first. */
  lemma {:induction false} SplitAfterPiece(a: string, sep: char, t: string)
    requires sep !in a
    ensures Split(a + t, sep) == [a + Split(t, sep)[0]] + Split(t, sep)[1..]
  {
    var st := Split(t, sep);
    if |a| > 0 {
      SplitAfterPiece(a[1..], sep, t);
      var r := Split(a[1..] + t, sep);
      assert r == [a[1..] + st[0]] + st[1..];
      assert (a + t)[1..] == a[1..] + t;
      assert (a + t)[0] == a[0] && a[0] != sep;
      assert Split(a + t, sep) == [[a[0]] + r[0]] + r[1..];
      assert r[0] == a[1..] + st[0];
      assert r[1..] == st[1..];
      assert [a[0]] + (a[1..] + st[0]) == a + st[0];
    } else {
      assert a + t == t;
      assert a + st[0] == st[0];
      assert st == [st[0]] + st[1..];
    }
  }

  /** Splitting a join of separator-free pieces gives back the pieces. */
  lemma {:induction false} SplitJoin(xs: seq<string>, sep: char)
    requires |xs| >= 1
    requires forall k :: 0 <= k < |xs| ==> sep !in xs[k]
    ensures Split(Join(xs, sep), sep) == xs
  {
    if |xs| == 1 {
      SplitAfterPiece(xs[0], sep, "");
      assert xs[0] + "" == xs[0];
    } else {
      var rest := Join(xs[1..], sep);
      SplitJoin(xs[1..], sep);
      var tail := [sep] + rest;
      assert tail[1..] == rest;
      assert Split(tail, sep) == [""] + xs[1..];
      SplitAfterPiece(xs[0], sep, tail);
      assert xs[0] + "" == xs[0];
      assert Join(xs, sep) == xs[0] + ([sep] + rest);
      assert ([sep] + rest)[1..] == rest;
      assert xs == [xs[0]] + xs[1..];
    }
  }

  /** Joined pieces of a common width `w` take `(w + 1) * n - 1` characters. */
  lemma {:induction false} JoinLength(xs: seq<string>, sep: char, w: nat)
    requires |xs| >= 1
    requires forall k :: 0 <= k < |xs| ==> |xs[k]| == w
    ensures |Join(xs, sep)| == (w + 1) * |xs| - 1
  {
    if |xs| > 1 {
      JoinLength(xs[1..], sep, w);
    }
  }

  // ---------------------------------------------------------------------
  // Number.prototype.toString(radix) and parsing digits back
  // ---------------------------------------------------------------------

  /** The digit character for `d`, lower case above 9, as `toString` writes it. */
  function DigitChar(d: nat): (c: char)
    requires d < 36
    ensures DigitValue(c) == d
  {
    if d < 10 then (48 + d) as char else (97 + d - 10) as char
  }

  /** The value of a digit character in either case, or -1 (as `parseInt` reads digits). */
  function DigitValue(c: char): int {
    if '0' <= c <= '9' then c as int - 48
    else if 'a' <= c <= 'z' then c as int - 97 + 10
    else if 'A' <= c <= 'Z' then c as int - 65 + 10
    else -1
  }

  predicate IsDigits(s: string, base: nat) {
    forall i :: 0 <= i < |s| ==> 0 <= DigitValue(s[i]) < base
  }

  /** The number written by the digit string `s` in `base`, most significant first. */
  function ValueOf(s: string, base: nat): nat
    requires IsDigits(s, base)
  {
    if |s| == 0 then 0 else ValueOf(s[..|s| - 1], base) * base + DigitValue(s[|s| - 1])
  }

  /** Reads a non-empty digit string in `base`; anything else is rejected. */
  function ParseRadix(s: string, base: nat): Option<nat> {
    if |s| > 0 && IsDigits(s, base) then Some(ValueOf(s, base)) else None
  }

  /** `n.toString(base)` for a non-negative integer `n`: digits only, and a
      leading zero exactly when `n` is zero. */
  function ToRadix(n: nat, base: nat): (r: string)
    requires 2 <= base <= 36
    ensures |r| >= 1
    ensures IsDigits(r, base)
    ensures r[0] == '0' <==> n == 0
  {
    if n < base then [DigitChar(n)]
    else
      DivShrinks(n, base);
      AppendDigit(ToRadix(n / base, base), DigitChar(n % base), base);
      ToRadix(n / base, base) + [DigitChar(n % base)]
  }

  /** A digit appended to digits that do not start with zero. */
  lemma AppendDigit(t: string, c: char, base: nat)
    requires |t| >= 1 && IsDigits(t, base) && t[0] != '0'
    requires 0 <= DigitValue(c) < base
    ensures IsDigits(t + [c], base) && (t + [c])[0] != '0'
  {
  }

  lemma ValueOfSnoc(s: string, c: char, base: nat)
    requires IsDigits(s, base) && 0 <= DigitValue(c) < base
    ensures IsDigits(s + [c], base)
    ensures ValueOf(s + [c], base) == ValueOf(s, base) * base + DigitValue(c)
  {
    assert (s + [c])[..|s|] == s;
  }

  lemma DivMod(n: nat, b: nat)
    requires b > 0
    ensures (n / b) * b + n % b == n
  {
  }

  lemma DivShrinks(n: nat, b: nat)
    requires 2 <= b <= n
    ensures 0 < n / b < n
  {
  }

  /** The digits `toString(radix)` writes have the value of the number. */
  lemma {:induction false} ValueOfToRadix(n: nat, base: nat)
    requires 2 <= base <= 36
    ensures ValueOf(ToRadix(n, base), base) == n
  {
    if n >= base {
      var m, d := n / base, n % base;
      DivShrinks(n, base);
      DivMod(n, base);
      var t := ToRadix(m, base);
      var c := DigitChar(d);
      assert ToRadix(n, base) == t + [c];
      ValueOfToRadix(m, base);
      ValueOfSnoc(t, c, base);
      assert ValueOf(t + [c], base) == m * base + d;
    } else {
      var c := DigitChar(n);
      ValueOfSnoc([], c, base);
      assert [] + [c] == [c];
      assert ValueOf([c], base) == n;
    }
  }

  /** `toString(radix)` and parsing are inverse. */
  lemma RadixRoundTrip(n: nat, base: nat)
    requires 2 <= base <= 36
    ensures ParseRadix(ToRadix(n, base), base) == Some(n)
  {
    ValueOfToRadix(n, base);
  }

  function Pow(b: nat, k: nat): nat {
    if k == 0 then 1 else b * Pow(b, k - 1)
  }

  /** A number below `base^k` takes at most `k` digits. */
  lemma {:induction false} RadixLength(n: nat, base: nat, k: nat)
    requires 2 <= base <= 36 && 1 <= k
    requires n < Pow(base, k)
    ensures |ToRadix(n, base)| <= k
    decreases k
  {
    if n >= base {
      QuotientBound(n, base, k);
      RadixLength(n / base, base, k - 1);
    }
  }

  /** Dropping the last digit of a number of at least two digits below `base^k`
      leaves one below `base^(k-1)`. */
  lemma QuotientBound(n: nat, base: nat, k: nat)
    requires 2 <= base <= n && 1 <= k && n < Pow(base, k)
    ensures 2 <= k && n / base < Pow(base, k - 1)
  {
    var p := Pow(base, k - 1);
    assert n < base * p;
    DivMod(n, base);
  }

  /** `c.repeat(k)` for one character. */
  function Repeat(c: char, k: nat): (r: string)
    ensures |r| == k
    ensures forall i :: 0 <= i < k ==> r[i] == c
  {
    if k == 0 then "" else [c] + Repeat(c, k - 1)
  }

  /** `s.padStart(width, c)`: `s` itself when long enough, else `s` after copies of `c`. */
  function PadStart(s: string, width: nat, c: char): (r: string)
    ensures |r| == if |s| >= width then |s| else width
    ensures r[|r| - |s|..] == s
    ensures forall i :: 0 <= i < |r| - |s| ==> r[i] == c
  {
    if |s| >= width then s else Repeat(c, width - |s|) + s
  }

  /** Leading zeros do not change the value of a digit string. */
  lemma {:induction false} ValueOfLeadingZeros(k: nat, s: string, base: nat)
    requires 2 <= base && IsDigits(s, base)
    ensures IsDigits(Repeat('0', k) + s, base)
    ensures ValueOf(Repeat('0', k) + s, base) == ValueOf(s, base)
    decreases |s|
  {
    var z := Repeat('0', k) + s;
    if |s| == 0 {
      assert z == Repeat('0', k);
      ValueOfZeros(k, base);
    } else {
      ValueOfLeadingZeros(k, s[..|s| - 1], base);
      assert z[..|z| - 1] == Repeat('0', k) + s[..|s| - 1];
    }
  }

  lemma {:induction false} ValueOfZeros(k: nat, base: nat)
    requires 2 <= base
    ensures IsDigits(Repeat('0', k), base)
    ensures ValueOf(Repeat('0', k), base) == 0
  {
    if k > 0 {
      ValueOfZeros(k - 1, base);
      var z := Repeat('0', k);
      assert z == [z[0]] + Repeat('0', k - 1);
      assert z[..k - 1] == Repeat('0', k - 1);
    }
  }

  // ---------------------------------------------------------------------
  // String.prototype.toUpperCase on ASCII
  // ---------------------------------------------------------------------

  function UpperChar(c: char): char {
    if 'a' <= c <= 'z' then (c as int - 32) as char else c
  }

  /** `s.toUpperCase()` restricted to ASCII letters. */
  function ToUpper(s: string): (r: string)
    ensures |r| == |s|
    ensures forall i :: 0 <= i < |s| ==> r[i] == UpperChar(s[i])
  {
    if |s| == 0 then "" else [UpperChar(s[0])] + ToUpper(s[1..])
  }

  // ---------------------------------------------------------------------
  // JavaScript truthiness of optional strings
  // ---------------------------------------------------------------------

  /** JavaScript truthiness of a string that may be `undefined`: present and non-empty. */
  predicate Truthy(s: Option<string>) {
    s.Some? && s.value != ""
  }

  /** `a || b` on strings that may be `undefined`. */
  function Or(a: Option<string>, b: Option<string>): (r: Option<string>)
    ensures Truthy(a) ==> r == a
    ensures !Truthy(a) ==> r == b
    ensures Truthy(r) <==> Truthy(a) || Truthy(b)
  {
    if Truthy(a) then a else b
  }
}
